/** A block from the recorded literals and matches to the bits and back to bytes: `tdefl_compress_block` and
    `tdefl_compress_lz_codes` against the decoding loop of `tinfl_decompress`. */
module DeflateBlock {
  import opened Bits
  import opened BitStream
  import opened CanonicalCode
  import opened DeflateSymbols
  import opened LzRecords
  import opened LzCodeBuffer
  import opened FixedCodes
  import opened StoredBlock
  import DynamicHeader
  import HuffmanTable
  import InflateTable
  import Optimality

  const END_OF_BLOCK := DynamicHeader.END_OF_BLOCK

  // ---- The bits of a record ----

  ghost predicate Coded(r: Record, s0: seq<nat>, s1: seq<nat>) {
    && RecordOk(r) && |s0| > 285 && |s1| >= 30
    && match r
       case Literal(b) => s0[b] > 0
       case Match(len, dist) => s0[LenSym(len - 3)] > 0 && s1[DistSym(dist - 1)] > 0
  }

  function RecordFields(r: Record, s0: seq<nat>, s1: seq<nat>): seq<Field>
    requires Coded(r, s0, s1)
  {
    match r
    case Literal(b) => [Field(Packed(s0, b), s0[b])]
    case Match(len, dist) =>
      var (l, d) := (len - 3, dist - 1);
      [Field(Packed(s0, LenSym(l)), s0[LenSym(l)]), Field(l % Pow2(LenExtra(l)), LenExtra(l)),
       Field(Packed(s1, DistSym(d)), s1[DistSym(d)]), Field(d % Pow2(DistExtra(d)), DistExtra(d))]
  }

  ghost predicate AllCoded(rs: seq<Record>, s0: seq<nat>, s1: seq<nat>) {
    forall i :: 0 <= i < |rs| ==> Coded(rs[i], s0, s1)
  }

  function BodyFields(rs: seq<Record>, s0: seq<nat>, s1: seq<nat>): seq<Field>
    requires AllCoded(rs, s0, s1)
  {
    if rs == [] then [] else RecordFields(rs[0], s0, s1) + BodyFields(rs[1..], s0, s1)
  }

  function EndField(s0: seq<nat>): Field
    requires |s0| > END_OF_BLOCK
  {
    Field(Packed(s0, END_OF_BLOCK), s0[END_OF_BLOCK])
  }

  lemma {:induction false} BodyAppend(rs: seq<Record>, r: Record, s0: seq<nat>, s1: seq<nat>)
    requires AllCoded(rs, s0, s1) && Coded(r, s0, s1)
    ensures BodyFields(rs + [r], s0, s1) == BodyFields(rs, s0, s1) + RecordFields(r, s0, s1)
  {
    hide RecordFields, Coded;
    if rs == [] {
      assert (rs + [r])[1..] == [];
    } else {
      assert (rs + [r])[1..] == rs[1..] + [r];
      BodyAppend(rs[1..], r, s0, s1);
    }
  }

  lemma RecordFit(r: Record, s0: seq<nat>, s1: seq<nat>)
    requires Coded(r, s0, s1) && Fits(s0) && Fits(s1)
    ensures Fit(RecordFields(r, s0, s1))
    ensures r.Literal? ==> s0[r.byte] <= 15 && Packed(s0, r.byte) < Pow2(s0[r.byte])
    ensures r.Match? ==> s0[LenSym(r.len - 3)] <= 15 && s1[DistSym(r.dist - 1)] <= 15
    ensures r.Match? ==> Packed(s0, LenSym(r.len - 3)) < Pow2(s0[LenSym(r.len - 3)])
    ensures r.Match? ==> Packed(s1, DistSym(r.dist - 1)) < Pow2(s1[DistSym(r.dist - 1)])
  {
    hide Packed, Pow2, First, LenSym, DistSym, LenExtra, DistExtra;
    match r
    case Literal(b) => CodeBound(s0, b);
    case Match(len, dist) =>
      CodeBound(s0, LenSym(len - 3));
      CodeBound(s1, DistSym(dist - 1));
  }

  /** The codes that the tables hold for the code lengths `s`. */
  ghost predicate HoldsCodes(codes: array<nat>, sizes: array<nat>, s: seq<nat>)
    reads codes, sizes
  {
    |s| <= sizes.Length && |s| <= codes.Length && sizes[..|s|] == s && DynamicHeader.Codes(codes[..], s)
  }

  lemma CodeAt(codes: array<nat>, sizes: array<nat>, s: seq<nat>, sym: nat)
    requires HoldsCodes(codes, sizes, s) && sym < |s| && s[sym] > 0
    ensures sizes[sym] == s[sym] && codes[sym] == Packed(s, sym)
  {
    hide Packed;
    assert sizes[..|s|][sym] == s[sym] && codes[..][sym] == Packed(s, sym);
  }

  /** The bits of one record. */
  method SendRecord(w: BitWriter, buf: array<nat>, p0: nat, isMatch: bool, codes0: array<nat>, sizes0: array<nat>,
                    codes1: array<nat>, sizes1: array<nat>, ghost r: Record, ghost s0: seq<nat>, ghost s1: seq<nat>)
    returns (p: nat)
    requires w.Valid() && HoldsCodes(codes0, sizes0, s0) && HoldsCodes(codes1, sizes1, s1)
    requires Coded(r, s0, s1) && Fits(s0) && Fits(s1) && isMatch == r.Match?
    requires p0 + |Payload(r)| <= buf.Length && buf[p0..p0 + |Payload(r)|] == Payload(r)
    modifies w
    ensures w.Valid() && w.sent == old(w.sent) + RecordFields(r, s0, s1) && old(w.output) <= w.output
    ensures p == p0 + |Payload(r)|
  {
    hide Packed, Fits, Stream, Width, Bytes, Fit, HoldsCodes, LenSym, DistSym, LenExtra, DistExtra, Pow2;
    RecordFit(r, s0, s1);
    if isMatch {
      assert buf[p0] == Payload(r)[0] && buf[p0 + 1] == Payload(r)[1] && buf[p0 + 2] == Payload(r)[2];
      var l, d := buf[p0], buf[p0 + 1] + 256 * buf[p0 + 2];
      assert l == r.len - 3 && d == r.dist - 1;
      CodeAt(codes0, sizes0, s0, LenSym(l));
      CodeAt(codes1, sizes1, s1, DistSym(d));
      SizesLong(codes0, sizes0, s0);
      SizesLong(codes1, sizes1, s1);
      w.PutBits(codes0[LenSym(l)], sizes0[LenSym(l)]);
      w.PutBits(l % Pow2(LenExtra(l)), LenExtra(l));
      w.PutBits(codes1[DistSym(d)], sizes1[DistSym(d)]);
      w.PutBits(d % Pow2(DistExtra(d)), DistExtra(d));
      p := p0 + 3;
    } else {
      assert buf[p0] == Payload(r)[0];
      CodeAt(codes0, sizes0, s0, r.byte);
      SizesLong(codes0, sizes0, s0);
      w.PutBits(codes0[buf[p0]], sizes0[buf[p0]]);
      p := p0 + 1;
    }
  }

  lemma SizesLong(codes: array<nat>, sizes: array<nat>, s: seq<nat>)
    requires HoldsCodes(codes, sizes, s)
    ensures |s| <= sizes.Length && |s| <= codes.Length
  {
  }

  // ---- Reading the code buffer ----

  /** The record that is read next: number `j` of group `i`, at `p`; `flags` has its flag lowest, above the
      rest a marker bit. */
  ghost predicate At(gs: seq<seq<Record>>, i: nat, j: nat, p: nat, flags: nat) {
    i <= |gs|
    && if j == 0 then flags == 1 && p == |Groups(gs[..i])|
       else
         && i < |gs| && j <= |gs[i]| && j < 8
         && flags == Pow2(8 - j) + FlagBits(gs[i][j..]) && p == |Groups(gs[..i])| + 1 + |Payloads(gs[i][..j])|
  }

  /** The records before that. */
  function Before(gs: seq<seq<Record>>, i: nat, j: nat): seq<Record>
    requires i <= |gs| && (j > 0 ==> i < |gs| && j <= |gs[i]|)
  {
    Flatten(gs[..i]) + if j == 0 then [] else gs[i][..j]
  }

  lemma {:induction false} GroupPrefix(gs: seq<seq<Record>>, i: nat)
    requires i < |gs|
    ensures |Groups(gs[..i])| + |Group(gs[i])| <= |Groups(gs)|
    ensures Groups(gs)[|Groups(gs[..i])|..|Groups(gs[..i])| + |Group(gs[i])|] == Group(gs[i])
  {
    hide Group;
    var n := |gs| - 1;
    if i < n {
      GroupPrefix(gs[..n], i);
      assert gs[..n][..i] == gs[..i];
    } else {
      assert gs[..i] == gs[..n];
    }
  }

  lemma {:induction false} PayloadPrefix(g: seq<Record>, j: nat)
    requires j < |g|
    ensures var a := |Payloads(g[..j])|;
            a + |Payload(g[j])| <= |Payloads(g)| && Payloads(g)[a..a + |Payload(g[j])|] == Payload(g[j])
  {
    hide Payload;
    var n := |g| - 1;
    if j < n {
      PayloadPrefix(g[..n], j);
      assert g[..n][..j] == g[..j];
    } else {
      assert g[..j] == g[..n];
    }
  }

  lemma PayloadsNext(g: seq<Record>, j: nat)
    requires j < |g|
    ensures Payloads(g[..j + 1]) == Payloads(g[..j]) + Payload(g[j])
  {
    assert g[..j + 1][..j] == g[..j];
  }

  lemma GroupsNext(gs: seq<seq<Record>>, i: nat)
    requires i < |gs|
    ensures Groups(gs[..i + 1]) == Groups(gs[..i]) + Group(gs[i])
    ensures Flatten(gs[..i + 1]) == Flatten(gs[..i]) + gs[i]
  {
    assert gs[..i + 1][..i] == gs[..i];
  }

  /** At the end of a group, or of all. */
  lemma MoreRecords(gs: seq<seq<Record>>, i: nat, j: nat, p: nat, flags: nat)
    requires GroupsOk(gs) && At(gs, i, j, p, flags) && p < |Groups(gs)|
    ensures i < |gs| && j < |gs[i]|
  {
    hide Groups, Payloads, FlagBits;
    assert gs[..|gs|] == gs;
    if i < |gs| {
      GroupsNext(gs, i);
      assert gs[i][..|gs[i]|] == gs[i];
      assert i + 1 == |gs| ==> gs[..i + 1] == gs;
    }
  }

  /** The flags once the flag byte has been fetched when it had to be. */
  function Fetched(flags: nat, byte: nat): nat {
    if flags == 1 then byte + 256 else flags
  }

  lemma FlagsFront(g: seq<Record>, j: nat)
    requires j < |g|
    ensures FlagBits(g[j..]) == (if g[j].Match? then 1 else 0) + 2 * FlagBits(g[j + 1..])
  {
    assert g[j..][1..] == g[j + 1..];
  }

  lemma FlagsNotOne(gs: seq<seq<Record>>, i: nat, j: nat, p: nat, flags: nat)
    requires At(gs, i, j, p, flags)
    ensures flags == 1 <==> j == 0
  {
    if j > 0 {
      assert Pow2(8 - j) == 2 * Pow2(7 - j);
    }
  }

  lemma PayloadSize(r: Record)
    requires RecordOk(r)
    ensures |Payload(r)| == if r.Match? then 3 else 1
  {
  }

  lemma SubSlice(s: seq<nat>, a: nat, n: nat, x: nat, y: nat)
    requires x <= y <= n && a + n <= |s|
    ensures s[a..a + n][x..y] == s[a + x..a + y]
  {
    var (t, u) := (s[a..a + n][x..y], s[a + x..a + y]);
    assert forall k :: 0 <= k < |t| ==> t[k] == u[k];
  }

  /** What the loop finds at the next record. */
  lemma NextRecord(gs: seq<seq<Record>>, i: nat, j: nat, p: nat, flags: nat)
    requires GroupsOk(gs) && At(gs, i, j, p, flags) && i < |gs| && j < |gs[i]| && RecordOk(gs[i][j])
    ensures p < |Groups(gs)|
    ensures var (r, f, q) := (gs[i][j], Fetched(flags, Groups(gs)[p]), if flags == 1 then p + 1 else p);
            && (f % 2 == 1 <==> r.Match?)
            && q + |Payload(r)| <= |Groups(gs)| && Groups(gs)[q..q + |Payload(r)|] == Payload(r)
            && f == Pow2(8 - j) + FlagBits(gs[i][j..]) && q == |Groups(gs[..i])| + 1 + |Payloads(gs[i][..j])|
  {
    hide Groups, Payloads, FlagBits, Payload;
    var g := gs[i];
    FlagsNotOne(gs, i, j, p, flags);
    GroupPrefix(gs, i);
    PayloadPrefix(g, j);
    FlagsFront(g, j);
    PayloadSize(g[j]);
    assert Pow2(8 - j) == 2 * Pow2(7 - j);
    var (a, b) := (|Groups(gs[..i])|, |Payloads(g[..j])|);
    var whole := Groups(gs)[a..a + |Group(g)|];
    assert whole[1 + b..1 + b + |Payload(g[j])|] == Payloads(g)[b..b + |Payload(g[j])|];
    SubSlice(Groups(gs), a, |Group(g)|, 1 + b, 1 + b + |Payload(g[j])|);
    if j == 0 {
      assert Pow2(8) == 256 by { Powers(); }
      assert g[0..] == g && g[..0] == [];
      assert Payloads([]) == [] by { EmptyGroup(); }
      assert Groups(gs)[a] == whole[0] == FlagBits(g);
    }
  }

  /** Past the record. */
  lemma PastRecord(gs: seq<seq<Record>>, i: nat, j: nat, f: nat, q: nat)
    requires GroupsOk(gs) && i < |gs| && j < |gs[i]|
    requires f == Pow2(8 - j) + FlagBits(gs[i][j..]) && q == |Groups(gs[..i])| + 1 + |Payloads(gs[i][..j])|
    ensures var (i', j') := if j == 7 then (i + 1, 0) else (i, j + 1);
            && At(gs, i', j', q + |Payload(gs[i][j])|, f / 2)
            && Before(gs, i', j') == Before(gs, i, j) + [gs[i][j]]
  {
    hide Groups, Payloads, FlagBits, Payload, Flatten;
    var g := gs[i];
    FlagsFront(g, j);
    PayloadsNext(g, j);
    GroupsNext(gs, i);
    assert Pow2(8 - j) == 2 * Pow2(7 - j);
    assert g[..j + 1] == g[..j] + [g[j]];
    if j == 7 {
      assert Pow2(0) == 1 && Pow2(1) == 2;
      assert g[8..] == [] && FlagBits([]) == 0 by { EmptyFlags(); }
      assert g[..8] == g;
      assert Flatten(gs[..i]) + (g[..7] + [g[7]]) == Flatten(gs[..i]) + g[..7] + [g[7]];
    } else {
      assert Flatten(gs[..i]) + (g[..j] + [g[j]]) == Flatten(gs[..i]) + g[..j] + [g[j]];
      assert j == 0 ==> g[..0] == [];
    }
  }

  lemma EmptyFlags()
    ensures FlagBits([]) == 0
  {
  }

  lemma InFlat(gs: seq<seq<Record>>, i: nat, j: nat)
    requires i < |gs| && j < |gs[i]|
    ensures gs[i][j] in Flatten(gs)
  {
    var n := |gs| - 1;
    if i < n {
      InFlat(gs[..n], i, j);
    }
  }

  /** At the end everything has been read. */
  lemma AllRead(gs: seq<seq<Record>>, i: nat, j: nat, p: nat, flags: nat)
    requires GroupsOk(gs) && At(gs, i, j, p, flags) && p >= |Groups(gs)|
    requires forall r :: r in Flatten(gs) ==> RecordOk(r)
    ensures Before(gs, i, j) == Flatten(gs)
  {
    hide Groups, Payloads, FlagBits, Flatten;
    assert gs[..|gs|] == gs;
    if i < |gs| {
      if j < |gs[i]| {
        InFlat(gs, i, j);
        NextRecord(gs, i, j, p, flags);
      } else {
        GroupsNext(gs, i);
        assert gs[i][..j] == gs[i] && gs[..i + 1] == gs;
      }
    }
  }

  /** One round of the loop that sends the records. */
  lemma ReadNext(gs: seq<seq<Record>>, i: nat, j: nat, p: nat, flags: nat, s0: seq<nat>, s1: seq<nat>, sent: seq<Field>)
    requires GroupsOk(gs) && AllCoded(Flatten(gs), s0, s1) && At(gs, i, j, p, flags) && p < |Groups(gs)|
    requires i <= |gs| && (j > 0 ==> i < |gs| && j <= |gs[i]|) && AllCoded(Before(gs, i, j), s0, s1)
    ensures i < |gs| && j < |gs[i]| && Coded(gs[i][j], s0, s1)
    ensures var (r, f, q) := (gs[i][j], Fetched(flags, Groups(gs)[p]), if flags == 1 then p + 1 else p);
            var (i', j') := if j == 7 then (i + 1, 0) else (i, j + 1);
            && (f % 2 == 1 <==> r.Match?) && |Payload(r)| > 0
            && q + |Payload(r)| <= |Groups(gs)| && Groups(gs)[q..q + |Payload(r)|] == Payload(r)
            && i' <= |gs| && (j' > 0 ==> i' < |gs| && j' <= |gs[i']|)
            && At(gs, i', j', q + |Payload(r)|, f / 2) && AllCoded(Before(gs, i', j'), s0, s1)
            && sent + BodyFields(Before(gs, i, j), s0, s1) + RecordFields(r, s0, s1) ==
              sent + BodyFields(Before(gs, i', j'), s0, s1)
  {
    hide Groups, Payloads, Payload, FlagBits, Flatten, RecordFields, Coded, At, BodyFields, Before;
    MoreRecords(gs, i, j, p, flags);
    var r := gs[i][j];
    InFlat(gs, i, j);
    CodedOk(Flatten(gs), r, s0, s1);
    NextRecord(gs, i, j, p, flags);
    BodyAppend(Before(gs, i, j), r, s0, s1);
    PastRecord(gs, i, j, Fetched(flags, Groups(gs)[p]), if flags == 1 then p + 1 else p);
    PayloadSize(r);
  }

  /** `tdefl_compress_lz_codes` */
  method CompressLzCodes(w: BitWriter, buf: array<nat>, end: nat, codes0: array<nat>, sizes0: array<nat>,
                         codes1: array<nat>, sizes1: array<nat>, ghost gs: seq<seq<Record>>, ghost s0: seq<nat>,
                         ghost s1: seq<nat>)
    requires w.Valid() && HoldsCodes(codes0, sizes0, s0) && HoldsCodes(codes1, sizes1, s1) && Fits(s0) && Fits(s1)
    requires end <= buf.Length && buf[..end] == Groups(gs) && GroupsOk(gs) && AllCoded(Flatten(gs), s0, s1)
    requires |s0| > 285 && s0[END_OF_BLOCK] > 0
    modifies w
    ensures w.Valid() && old(w.output) <= w.output
    ensures w.sent == old(w.sent) + BodyFields(Flatten(gs), s0, s1) + [EndField(s0)]
  {
    hide Fits, Stream, Width, Bytes, Fit, HoldsCodes, Packed, Groups, Payloads, Payload, FlagBits, Flatten,
         RecordFields, Coded, At;
    ghost var sent := w.sent;
    ghost var i: nat, j: nat := 0, 0;
    var p: nat, flags: nat := 0, 1;
    Started(gs, s0, s1);
    while p < end
      invariant w.Valid() && old(w.output) <= w.output && At(gs, i, j, p, flags)
      invariant i <= |gs| && (j > 0 ==> i < |gs| && j <= |gs[i]|)
      invariant AllCoded(Before(gs, i, j), s0, s1) && w.sent == sent + BodyFields(Before(gs, i, j), s0, s1)
      decreases end - p
    {
      ReadNext(gs, i, j, p, flags, s0, s1, sent);
      ghost var r := gs[i][j];
      if flags == 1 {
        flags := buf[p] + 256;
        p := p + 1;
      }
      p := SendRecord(w, buf, p, flags % 2 == 1, codes0, sizes0, codes1, sizes1, r, s0, s1);
      flags := flags / 2;
      i, j := if j == 7 then i + 1 else i, if j == 7 then 0 else j + 1;
    }
    AllOk(Flatten(gs), s0, s1);
    AllRead(gs, i, j, p, flags);
    CodeAt(codes0, sizes0, s0, END_OF_BLOCK);
    SizesLong(codes0, sizes0, s0);
    EndFits(s0);
    w.PutBits(codes0[END_OF_BLOCK], sizes0[END_OF_BLOCK]);
  }

  lemma EndFits(s0: seq<nat>)
    requires Fits(s0) && |s0| > END_OF_BLOCK && s0[END_OF_BLOCK] > 0
    ensures Packed(s0, END_OF_BLOCK) < Pow2(s0[END_OF_BLOCK]) && s0[END_OF_BLOCK] <= 15
  {
    hide First, Packed, Pow2;
    CodeBound(s0, END_OF_BLOCK);
  }

  lemma Started(gs: seq<seq<Record>>, s0: seq<nat>, s1: seq<nat>)
    ensures At(gs, 0, 0, 0, 1) && Before(gs, 0, 0) == []
    ensures BodyFields([], s0, s1) == []
  {
    assert gs[..0] == [];
  }

  lemma CodedOk(rs: seq<Record>, r: Record, s0: seq<nat>, s1: seq<nat>)
    requires AllCoded(rs, s0, s1) && r in rs
    ensures RecordOk(r) && Coded(r, s0, s1)
  {
  }

  lemma AllOk(rs: seq<Record>, s0: seq<nat>, s1: seq<nat>)
    requires AllCoded(rs, s0, s1)
    ensures forall r :: r in rs ==> RecordOk(r)
  {
    forall r | r in rs ensures RecordOk(r) {
      CodedOk(rs, r, s0, s1);
    }
  }

  // ---- Decoding ----

  /** The tables decode the code with lengths `s`, of which the header sent the first `n`. */
  ghost predicate Decodes(look: array<int>, tree: array<int>, s: seq<nat>, n: nat, paths: seq<InflateTable.Path>)
    reads look, tree
  {
    && n <= |s| && DynamicHeader.ZeroFrom(s, n) && Fits(s[..n])
    && InflateTable.Holds(s[..n], n, n, look[..], tree[..], paths)
  }

  lemma SymbolInFront(s: seq<nat>, n: nat, sym: nat, bits: nat)
    requires n <= |s| && DynamicHeader.ZeroFrom(s, n) && sym < |s| && s[sym] > 0 && Low(bits, s[sym]) == Packed(s, sym)
    ensures sym < n && s[..n][sym] == s[sym] && Low(bits, s[..n][sym]) == Packed(s[..n], sym)
  {
    hide Packed, Low;
    DynamicHeader.TrimCode(s, n, sym);
  }

  method ReadSymbol(bitBuf: Input, look: array<int>, tree: array<int>, ghost s: seq<nat>, ghost n: nat,
                    ghost paths: seq<InflateTable.Path>, ghost sym: nat, ghost fs: seq<Field>)
    returns (got: int, left: Input)
    requires Decodes(look, tree, s, n, paths) && sym < |s| && s[sym] > 0
    requires fs != [] && Fit(fs) && fs[0] == Field(Packed(s, sym), s[sym]) && bitBuf == InputOf(fs)
    ensures got == sym && left == InputOf(fs[1..])
  {
    hide Packed, Low, InputOf, Fit, InflateTable.Holds, Fits;
    ReadField(fs);
    SymbolInFront(s, n, sym, bitBuf.bits);
    var codeLen;
    got, codeLen := InflateTable.HuffDecode(look, tree, bitBuf.bits, s[..n], paths, sym);
    left := Skip(bitBuf, codeLen);
  }

  /** The copy loop. */
  method CopyBack(out: array<nat>, pos: nat, len: nat, dist: nat)
    requires 1 <= dist <= pos && pos + len <= out.Length
    modifies out
    ensures out[..pos + len] == Copy(old(out[..pos]), len, dist)
  {
    ghost var before := out[..pos];
    for i := 0 to len
      invariant out[..pos + i] == Copy(before, i, dist)
    {
      ghost var (now, b) := (out[..pos + i], out[pos + i - dist]);
      assert now[|now| - dist] == b;
      out[pos + i] := out[pos + i - dist];
      assert out[..pos + i + 1] == now + [b];
    }
  }

  /** Length and distance of a match, once its length symbol has been read. */
  method ReadMatch(bitBuf: Input, sym: nat, look1: array<int>, tree1: array<int>, ghost s1: seq<nat>, ghost n1: nat,
                   ghost paths1: seq<InflateTable.Path>, ghost len0: nat, ghost dist0: nat, ghost rest: seq<Field>)
    returns (len: nat, dist: nat, left: Input)
    requires Decodes(look1, tree1, s1, n1, paths1) && RecordOk(Match(len0, dist0)) && sym == LenSym(len0 - 3)
    requires |s1| >= 30 && s1[DistSym(dist0 - 1)] > 0
    requires var (l, d) := (len0 - 3, dist0 - 1);
             var fs := [Field(l % Pow2(LenExtra(l)), LenExtra(l)), Field(Packed(s1, DistSym(d)), s1[DistSym(d)]),
                        Field(d % Pow2(DistExtra(d)), DistExtra(d))] + rest;
             Fit(fs) && bitBuf == InputOf(fs)
    ensures len == len0 && dist == dist0 && left == InputOf(rest)
  {
    hide Packed, InputOf, Fit, Decodes, LenSym, LenExtra, DistSym, DistExtra, Pow2;
    ghost var (l, d) := (len0 - 3, dist0 - 1);
    ghost var fs := [Field(l % Pow2(LenExtra(l)), LenExtra(l)), Field(Packed(s1, DistSym(d)), s1[DistSym(d)]),
                     Field(d % Pow2(DistExtra(d)), DistExtra(d))] + rest;
    LengthBack(l);
    DistanceBack(d);
    DynamicHeader.FitRest(fs);
    DynamicHeader.FitRest(fs[1..]);
    assert fs[1..][1..][1..] == rest;
    var extra, distSym;
    extra, left := DynamicHeader.GetBits(bitBuf, LENGTH_EXTRA[sym - 257], fs);
    len := LENGTH_BASE[sym - 257] + extra;
    distSym, left := ReadSymbol(left, look1, tree1, s1, n1, paths1, DistSym(d), fs[1..]);
    extra, left := DynamicHeader.GetBits(left, DIST_EXTRA[distSym], fs[1..][1..]);
    dist := DIST_BASE[distSym] + extra;
  }

  /** The fields of what comes next: a record, or the end of the block. */
  function NextFields(last: bool, r: Record, s0: seq<nat>, s1: seq<nat>): seq<Field>
    requires |s0| > END_OF_BLOCK && (!last ==> Coded(r, s0, s1))
  {
    if last then [EndField(s0)] else RecordFields(r, s0, s1)
  }

  /** One record, a byte or a copy of what was written before; or the end of the block. */
  method InflateNext(bitBuf: Input, out: array<nat>, pos0: nat, look0: array<int>, tree0: array<int>,
                     look1: array<int>, tree1: array<int>,
                     ghost s0: seq<nat>, ghost n0: nat, ghost paths0: seq<InflateTable.Path>,
                     ghost s1: seq<nat>, ghost n1: nat, ghost paths1: seq<InflateTable.Path>,
                     ghost last: bool, ghost r: Record, ghost rest: seq<Field>)
    returns (pos: nat, left: Input, ended: bool)
    requires Decodes(look0, tree0, s0, n0, paths0) && Decodes(look1, tree1, s1, n1, paths1)
    requires |s0| > END_OF_BLOCK && s0[END_OF_BLOCK] > 0 && (!last ==> Coded(r, s0, s1))
    requires Fit(NextFields(last, r, s0, s1) + rest) && bitBuf == InputOf(NextFields(last, r, s0, s1) + rest)
    requires pos0 <= out.Length && (!last ==> (r.Match? ==> r.dist <= pos0) && |Apply(out[..pos0], r)| <= out.Length)
    requires out as object != look0 && out as object != tree0 && out as object != look1 && out as object != tree1
    modifies out
    ensures ended == last && left == InputOf(rest) && pos <= out.Length
    ensures out[..pos] == if last then old(out[..pos0]) else Apply(old(out[..pos0]), r)
  {
    hide Packed, InputOf, Fit, Decodes, LenSym, LenExtra, DistSym, DistExtra, Pow2;
    ghost var fs := NextFields(last, r, s0, s1) + rest;
    ghost var sym0 := if last then END_OF_BLOCK else if r.Match? then LenSym(r.len - 3) else r.byte;
    var sym;
    sym, left := ReadSymbol(bitBuf, look0, tree0, s0, n0, paths0, sym0, fs);
    ended := false;
    if sym < 256 {
      assert fs[1..] == rest;
      out[pos0] := sym;
      pos := pos0 + 1;
      assert out[..pos] == old(out[..pos0]) + [sym];
    } else if sym == END_OF_BLOCK {
      assert fs[1..] == rest;
      pos, ended := pos0, true;
    } else {
      DynamicHeader.FitRest(fs);
      assert fs[1..] == RecordFields(r, s0, s1)[1..] + rest;
      var len, dist;
      len, dist, left := ReadMatch(left, sym, look1, tree1, s1, n1, paths1, r.len, r.dist, rest);
      CopyBack(out, pos0, len, dist);
      pos := pos0 + len;
    }
  }

  lemma {:induction false} ExpandGrows(rs: seq<Record>, k: nat)
    requires k <= |rs|
    ensures |Expand(rs[..k])| <= |Expand(rs)|
  {
    if k == |rs| {
      assert rs[..k] == rs;
    } else {
      ExpandGrows(rs[..|rs| - 1], k);
      assert rs[..|rs| - 1][..k] == rs[..k];
    }
  }

  lemma ExpandNext(rs: seq<Record>, k: nat)
    requires RecordsOk(rs) && k < |rs|
    ensures Expand(rs[..k + 1]) == Apply(Expand(rs[..k]), rs[k])
    ensures rs[k].Match? ==> rs[k].dist <= |Expand(rs[..k])|
    ensures |Expand(rs[..k + 1])| <= |Expand(rs)|
  {
    hide Apply;
    assert rs[..k + 1][..k] == rs[..k];
    ExpandGrows(rs, k + 1);
  }

  lemma BodyFront(rs: seq<Record>, k: nat, s0: seq<nat>, s1: seq<nat>, rest: seq<Field>)
    requires AllCoded(rs, s0, s1) && k < |rs|
    ensures AllCoded(rs[k..], s0, s1) && AllCoded(rs[k + 1..], s0, s1)
    ensures BodyFields(rs[k..], s0, s1) + rest == RecordFields(rs[k], s0, s1) + (BodyFields(rs[k + 1..], s0, s1) + rest)
  {
    hide RecordFields, Coded;
    assert rs[k..][1..] == rs[k + 1..];
  }

  lemma {:induction false} BodyFit(rs: seq<Record>, k: nat, s0: seq<nat>, s1: seq<nat>)
    requires AllCoded(rs, s0, s1) && Fits(s0) && Fits(s1) && k <= |rs|
    ensures AllCoded(rs[k..], s0, s1) && Fit(BodyFields(rs[k..], s0, s1))
    decreases |rs| - k
  {
    hide RecordFields, Coded, Fits, Fit;
    if k < |rs| {
      BodyFit(rs, k + 1, s0, s1);
      BodyFront(rs, k, s0, s1, []);
      RecordFit(rs[k], s0, s1);
      assert rs[k..][1..] == rs[k + 1..];
      DynamicHeader.FitConcat(RecordFields(rs[k], s0, s1), BodyFields(rs[k + 1..], s0, s1));
    } else {
      assert rs[k..] == [];
      DynamicHeader.FitNone();
    }
  }

  /** The fields still to be read: the records from `k` on, the end of the block, and what follows. */
  function Remaining(rs: seq<Record>, k: nat, s0: seq<nat>, s1: seq<nat>, rest: seq<Field>): seq<Field>
    requires AllCoded(rs, s0, s1) && k <= |rs| && |s0| > END_OF_BLOCK
  {
    BodyFields(rs[k..], s0, s1) + ([EndField(s0)] + rest)
  }

  lemma RemainingFit(rs: seq<Record>, k: nat, s0: seq<nat>, s1: seq<nat>, rest: seq<Field>)
    requires AllCoded(rs, s0, s1) && k <= |rs| && |s0| > END_OF_BLOCK && Fits(s0) && Fits(s1)
             && s0[END_OF_BLOCK] > 0 && Fit(rest)
    ensures Fit(Remaining(rs, k, s0, s1, rest))
  {
    hide Coded, Fits, Packed, BodyFields;
    BodyFit(rs, k, s0, s1);
    EndFits(s0);
    OneFits(EndField(s0));
    hide Fit;
    DynamicHeader.FitConcat([EndField(s0)], rest);
    DynamicHeader.FitConcat(BodyFields(rs[k..], s0, s1), [EndField(s0)] + rest);
  }

  lemma OneFits(f: Field)
    requires f.bits < Pow2(f.len)
    ensures Fit([f])
  {
  }

  lemma RemainingNext(rs: seq<Record>, k: nat, s0: seq<nat>, s1: seq<nat>, rest: seq<Field>)
    requires AllCoded(rs, s0, s1) && k < |rs| && |s0| > END_OF_BLOCK
    ensures Coded(rs[k], s0, s1)
    ensures Remaining(rs, k, s0, s1, rest) == RecordFields(rs[k], s0, s1) + Remaining(rs, k + 1, s0, s1, rest)
  {
    hide Coded, RecordFields, BodyFields;
    BodyFront(rs, k, s0, s1, [EndField(s0)] + rest);
  }

  lemma RemainingEnd(rs: seq<Record>, s0: seq<nat>, s1: seq<nat>, rest: seq<Field>)
    requires AllCoded(rs, s0, s1) && |s0| > END_OF_BLOCK
    ensures Remaining(rs, |rs|, s0, s1, rest) == [EndField(s0)] + rest
  {
    assert rs[|rs|..] == [];
  }

  /** The records of a block that come after `prior`. */
  ghost predicate Follows(prior: seq<Record>, rs: seq<Record>, out: seq<nat>, k: nat, room: nat) {
    k <= |rs| && RecordsOk(prior + rs) && |Expand(prior + rs)| <= room && out == Expand(prior + rs[..k])
  }

  lemma FollowNext(prior: seq<Record>, rs: seq<Record>, out: seq<nat>, k: nat, room: nat)
    requires Follows(prior, rs, out, k, room) && k < |rs|
    ensures Follows(prior, rs, Apply(out, rs[k]), k + 1, room) && |Apply(out, rs[k])| <= room
    ensures rs[k].Match? ==> rs[k].dist <= |out|
  {
    hide Expand, Apply, RecordsOk;
    var all := prior + rs;
    ExpandNext(all, |prior| + k);
    assert all[..|prior| + k] == prior + rs[..k] && all[..|prior| + k + 1] == prior + rs[..k + 1];
  }

  /** What is read next after `k` records. */
  lemma NextIs(rs: seq<Record>, k: nat, s0: seq<nat>, s1: seq<nat>, rest: seq<Field>)
    requires AllCoded(rs, s0, s1) && k <= |rs| && |s0| > END_OF_BLOCK
    ensures k < |rs| ==> Coded(rs[k], s0, s1)
    ensures var r := if k < |rs| then rs[k] else Literal(0);
            Remaining(rs, k, s0, s1, rest)
            == NextFields(k == |rs|, r, s0, s1) + if k < |rs| then Remaining(rs, k + 1, s0, s1, rest) else rest
  {
    hide Coded, RecordFields, Remaining, AllCoded, EndField;
    if k < |rs| {
      RemainingNext(rs, k, s0, s1, rest);
    } else {
      RemainingEnd(rs, s0, s1, rest);
    }
  }

  /** The decoding loop of `tinfl_decompress`, up to the end of the block. */
  method InflateBlock(bitBuf: Input, out: array<nat>, pos0: nat, look0: array<int>, tree0: array<int>,
                      look1: array<int>, tree1: array<int>,
                      ghost s0: seq<nat>, ghost n0: nat, ghost paths0: seq<InflateTable.Path>,
                      ghost s1: seq<nat>, ghost n1: nat, ghost paths1: seq<InflateTable.Path>,
                      ghost prior: seq<Record>, ghost rs: seq<Record>, ghost rest: seq<Field>)
    returns (pos: nat, left: Input)
    requires Decodes(look0, tree0, s0, n0, paths0) && Decodes(look1, tree1, s1, n1, paths1) && Fits(s0) && Fits(s1)
    requires AllCoded(rs, s0, s1) && |s0| > END_OF_BLOCK && s0[END_OF_BLOCK] > 0 && Fit(rest)
    requires bitBuf == InputOf(Remaining(rs, 0, s0, s1, rest))
    requires pos0 <= out.Length && Follows(prior, rs, out[..pos0], 0, out.Length)
    requires out as object != look0 && out as object != tree0 && out as object != look1 && out as object != tree1
    modifies out
    ensures left == InputOf(rest) && pos <= out.Length && out[..pos] == Expand(prior + rs)
  {
    hide Packed, InputOf, Fit, Decodes, Follows, Remaining, Coded, RecordFields, Fits, AllCoded, EndField, Apply,
         NextFields;
    pos, left := pos0, bitBuf;
    ghost var k: nat := 0;
    var ended := false;
    while !ended
      invariant k <= |rs| && pos <= out.Length && Follows(prior, rs, out[..pos], k, out.Length)
      invariant left == if ended then InputOf(rest) else InputOf(Remaining(rs, k, s0, s1, rest))
      invariant Decodes(look0, tree0, s0, n0, paths0) && Decodes(look1, tree1, s1, n1, paths1) && (ended ==> k == |rs|)
      decreases |rs| - k, !ended
    {
      NextIs(rs, k, s0, s1, rest);
      RemainingFit(rs, k, s0, s1, rest);
      ghost var last := k == |rs|;
      if !last {
        FollowNext(prior, rs, out[..pos], k, out.Length);
      }
      pos, left, ended := InflateNext(left, out, pos, look0, tree0, look1, tree1, s0, n0, paths0, s1, n1, paths1, last,
                                      if last then Literal(0) else rs[k],
                                      if last then rest else Remaining(rs, k + 1, s0, s1, rest));
      k := if last then k else k + 1;
    }
    FollowEnd(prior, rs, out[..pos], out.Length);
  }

  lemma FollowEnd(prior: seq<Record>, rs: seq<Record>, out: seq<nat>, room: nat)
    requires Follows(prior, rs, out, |rs|, room)
    ensures out == Expand(prior + rs)
  {
    assert rs[..|rs|] == rs;
  }

  // ---- A block from end to end ----

  lemma SumOne(lit: seq<nat>, n: nat)
    requires |lit| == 288 && lit[END_OF_BLOCK] == 0 && Optimality.Sum(lit) == n
    ensures Optimality.Sum(lit[END_OF_BLOCK := 1]) == n + 1
  {
    Optimality.UpdateSum(lit, END_OF_BLOCK, 1);
  }

  /** The counts of a block are what the code construction asks for. */
  lemma CountsFit(rs: seq<Record>, lit: seq<nat>, dist: seq<nat>)
    requires CountsOk(rs, lit, dist) && |rs| < 65535
    ensures DynamicHeader.Counted(lit[END_OF_BLOCK := 1], 288, 286) && DynamicHeader.Counted(dist, 32, 30)
  {
    hide Optimality.Sum, HasSymbols;
    SumOne(lit, |rs|);
    assert lit[END_OF_BLOCK := 1][..288] == lit[END_OF_BLOCK := 1] && dist[..32] == dist;
  }

  /** A symbol that was counted has a code. */
  lemma CountedCoded(rs: seq<Record>, lit: seq<nat>, dist: seq<nat>, s0: seq<nat>, s1: seq<nat>)
    requires CountsOk(rs, lit, dist) && |s0| == 288 && |s1| == 32
    requires HuffmanTable.Suits(lit[END_OF_BLOCK := 1], s0, 15) && HuffmanTable.Suits(dist, s1, 15)
    ensures AllCoded(rs, s0, s1) && s0[END_OF_BLOCK] > 0
  {
    hide Optimality.Sum;
    forall i | 0 <= i < |rs| ensures Coded(rs[i], s0, s1) {
      assert HasSymbols(rs[i], lit, dist);
    }
  }

  lemma TableParts(f: seq<nat>, sizes: seq<nat>)
    requires HuffmanTable.DynamicTable(f, sizes, 15) && |f| == |sizes|
    ensures HuffmanTable.Suits(f, sizes, 15) && InflateTable.Accepted(sizes) && Fits(sizes)
  {
    hide InflateTable.Accepted, HuffmanTable.Suits, Complete, HuffmanTable.KeepsShort, HuffmanTable.Ranked, Fits;
    assert sizes[..|f|] == sizes;
    InflateTable.AcceptedFits(sizes);
  }

  /** A dynamic block with everything that the decoder relies on. */
  ghost predicate BlockOk(h: DynamicHeader.Header, rs: seq<Record>, s0: seq<nat>, s1: seq<nat>) {
    && |s0| == 288 && |s1| == 32 && InflateTable.Accepted(s0) && InflateTable.Accepted(s1)
    && s0[END_OF_BLOCK] > 0 && AllCoded(rs, s0, s1)
    && DynamicHeader.HeaderOk(h) && DynamicHeader.Describes(h, s0, s1)
  }

  /** How a block is sent: its bytes as they are, with the fixed codes, or with codes of its own. */
  datatype Form =
    | Plain(data: seq<nat>)
    | Fixed
    | Dynamic(h: DynamicHeader.Header, s0: seq<nat>, s1: seq<nat>)

  ghost predicate Sendable(form: Form, rs: seq<Record>) {
    match form
    case Plain(data) => AreBytes(data) && |data| < 65536
    case Fixed => AllCoded(rs, FixedLiterals(), FixedDistances())
    case Dynamic(h, s0, s1) => BlockOk(h, rs, s0, s1)
  }

  /** The bits of a block behind the final bit, which ends `at` bits into the stream. */
  ghost function FormFields(form: Form, rs: seq<Record>, at: nat): seq<Field>
    requires Sendable(form, rs)
  {
    match form
    case Plain(data) => StoredFields(data, at)
    case Fixed => [Field(1, 2)] + BodyFields(rs, FixedLiterals(), FixedDistances()) + [EndField(FixedLiterals())]
    case Dynamic(h, s0, s1) =>
      [Field(2, 2)] + DynamicHeader.HeaderFields(h) + BodyFields(rs, s0, s1) + [EndField(s0)]
  }

  /** The codes for the counts of a block, and the header that describes them. */
  method SendBlockHeader(w: BitWriter, t0: DynamicHeader.Table, t1: DynamicHeader.Table, ghost rs: seq<Record>)
    returns (ghost h: DynamicHeader.Header)
    requires w.Valid() && t0.Rows() && t1.Rows() && t0.freqs.Length == 288 && t1.freqs.Length == 32
    requires CountsOk(rs, t0.freqs[..], t1.freqs[..]) && |rs| < 65535 && t0.Memory() !! t1.Memory()
    modifies w, t0.freqs, t0.codeSizes, t0.codes, t1.codeSizes, t1.codes
    ensures BlockOk(h, rs, t0.codeSizes[..], t1.codeSizes[..])
    ensures HoldsCodes(t0.codes, t0.codeSizes, t0.codeSizes[..]) && HoldsCodes(t1.codes, t1.codeSizes, t1.codeSizes[..])
    ensures w.Valid() && old(w.output) <= w.output
    ensures w.sent == old(w.sent) + ([Field(2, 2)] + DynamicHeader.HeaderFields(h))
  {
    hide CountsOk, Stream, Width, Bytes, Fit, Optimality.Sum, Fits, InflateTable.Accepted, HuffmanTable.DynamicTable,
         DynamicHeader.HeaderOk, DynamicHeader.HeaderFields, DynamicHeader.Describes, DynamicHeader.Counted,
         HuffmanTable.Suits, AllCoded, Packed;
    ghost var (lit, dist) := (t0.freqs[..], t1.freqs[..]);
    CountsFit(rs, lit, dist);
    h := DynamicHeader.StartDynamicBlock(w, t0, t1);
    assert t0.freqs[..288] == t0.freqs[..] && t1.freqs[..32] == t1.freqs[..] == dist;
    assert t0.codeSizes[..288] == t0.codeSizes[..] && t1.codeSizes[..32] == t1.codeSizes[..];
    TableParts(t0.freqs[..], t0.codeSizes[..]);
    TableParts(t1.freqs[..], t1.codeSizes[..]);
    CountedCoded(rs, lit, dist, t0.codeSizes[..], t1.codeSizes[..]);
  }

  lemma BlockParts(h: DynamicHeader.Header, rs: seq<Record>, s0: seq<nat>, s1: seq<nat>)
    requires BlockOk(h, rs, s0, s1)
    ensures |s0| == 288 && |s1| == 32 && Fits(s0) && Fits(s1) && s0[END_OF_BLOCK] > 0
    ensures AllCoded(rs, s0, s1) && DynamicHeader.HeaderOk(h)
  {
    hide InflateTable.Accepted, AllCoded, DynamicHeader.HeaderOk, DynamicHeader.Describes, Fits;
    InflateTable.AcceptedFits(s0);
    InflateTable.AcceptedFits(s1);
  }

  /** The fixed codes have a word for every record. */
  lemma FixedCoded(rs: seq<Record>)
    requires forall i :: 0 <= i < |rs| ==> RecordOk(rs[i])
    ensures AllCoded(rs, FixedLiterals(), FixedDistances()) && Fits(FixedLiterals()) && Fits(FixedDistances())
  {
    hide LenSym, DistSym, FixedLiterals, FixedDistances, First;
    LiteralsComplete();
    DistancesComplete();
  }

  /** What the flush of a block works on: the finished code buffer and the tables for the two codes. */
  ghost predicate Finished(codes: CodeBuffer, t0: DynamicHeader.Table, t1: DynamicHeader.Table, gs: seq<seq<Record>>)
    reads codes, codes.buf
  {
    && codes.pos <= codes.buf.Length && codes.buf[..codes.pos] == Groups(gs) && GroupsOk(gs)
    && t0.Rows() && t1.Rows() && t0.freqs == codes.litCounts && t1.freqs == codes.distCounts
    && t0.Memory() !! t1.Memory() && codes.buf !in t0.Memory() + t1.Memory()
    && t0.freqs.Length == 288 && t1.freqs.Length == 32
  }

  /** `tdefl_compress_block`. What the code buffer holds stays, so that the block may be sent once more. */
  method CompressBlock(w: BitWriter, codes: CodeBuffer, t0: DynamicHeader.Table, t1: DynamicHeader.Table,
                       staticBlock: bool,
                       ghost gs: seq<seq<Record>>)
    returns (ghost form: Form)
    requires w.Valid() && Finished(codes, t0, t1, gs)
    requires !staticBlock ==> CountsOk(Flatten(gs), t0.freqs[..], t1.freqs[..]) && |Flatten(gs)| < 65535
    requires forall i :: 0 <= i < |Flatten(gs)| ==> RecordOk(Flatten(gs)[i])
    modifies w, t0.freqs, t0.codeSizes, t0.codes, t1.codeSizes, t1.codes
    ensures Sendable(form, Flatten(gs)) && !form.Plain? && Finished(codes, t0, t1, gs)
    ensures form.Fixed? <==> staticBlock
    ensures w.Valid() && w.sent == old(w.sent) + FormFields(form, Flatten(gs), 0) && old(w.output) <= w.output
  {
    hide CountsOk, Stream, Width, Bytes, Fit, Groups, Flatten, GroupsOk, Fits, BlockOk, HoldsCodes, RecordOk,
         DynamicHeader.HeaderOk, DynamicHeader.HeaderFields, AllCoded, EndField, BodyFields, Packed;
    ghost var (rs, b, sent) := (Flatten(gs), codes.buf[..], w.sent);
    ghost var s0, s1;
    if staticBlock {
      StartStaticBlock(w, t0, t1);
      s0, s1 := FixedLiterals(), FixedDistances();
      form := Fixed;
      FixedCoded(rs);
      CodesHeld(t0.codes, t0.codeSizes, s0);
      CodesHeld(t1.codes, t1.codeSizes, s1);
    } else {
      ghost var h := SendBlockHeader(w, t0, t1, rs);
      s0, s1 := t0.codeSizes[..], t1.codeSizes[..];
      form := Dynamic(h, s0, s1);
      BlockParts(h, rs, s0, s1);
    }
    assert codes.buf[..] == b && codes.buf[..codes.pos] == Groups(gs);
    CompressLzCodes(w, codes.buf, codes.pos, t0.codes, t0.codeSizes, t1.codes, t1.codeSizes, gs, s0, s1);
    assert w.sent == sent + FormFields(form, rs, 0);
  }

  lemma CodesHeld(codes: array<nat>, sizes: array<nat>, s: seq<nat>)
    requires sizes[..] == s && DynamicHeader.Codes(codes[..], s)
    ensures HoldsCodes(codes, sizes, s)
  {
    hide Packed;
    assert sizes[..|s|] == s;
  }

  // ---- Reading a block ----

  /** The input behind the type of the block. */
  ghost function AfterType(form: Form, rs: seq<Record>, at: nat, rest: seq<Field>): seq<Field>
    requires Sendable(form, rs)
  {
    match form
    case Plain(data) => Padding(at + 2) + (LengthWords(|data|) + (ByteFields(data) + rest))
    case Fixed => Remaining(rs, 0, FixedLiterals(), FixedDistances(), rest)
    case Dynamic(h, s0, s1) => DynamicHeader.HeaderFields(h) + Remaining(rs, 0, s0, s1, rest)
  }

  function Kind(form: Form): nat {
    if form.Plain? then 0 else if form.Fixed? then 1 else 2
  }

  lemma FormSplits(form: Form, rs: seq<Record>, at: nat, rest: seq<Field>)
    requires Sendable(form, rs) && Fit(rest)
    ensures FormFields(form, rs, at) + rest == [Field(Kind(form), 2)] + AfterType(form, rs, at, rest)
    ensures Fit(AfterType(form, rs, at, rest))
  {
    hide Fit, Fits, BlockOk, AllCoded, EndField, BodyFields, AreBytes, StoredFields, Padding, LengthWords, ByteFields,
         DynamicHeader.HeaderOk, DynamicHeader.HeaderFields, FixedLiterals, FixedDistances;
    assert rs[0..] == rs;
    match form
    case Plain(data) => StoredSplits(data, at, rest);
    case Fixed =>
      FixedFits();
      RemainingFit(rs, 0, FixedLiterals(), FixedDistances(), rest);
    case Dynamic(h, s0, s1) =>
      BlockParts(h, rs, s0, s1);
      RemainingFit(rs, 0, s0, s1, rest);
      DynamicHeader.HeaderFit(h);
      DynamicHeader.FitConcat(DynamicHeader.HeaderFields(h), Remaining(rs, 0, s0, s1, rest));
  }

  lemma FixedFits()
    ensures Fits(FixedLiterals()) && Fits(FixedDistances()) && FixedLiterals()[END_OF_BLOCK] > 0
  {
    hide First, FixedLiterals, FixedDistances;
    LiteralsComplete();
    DistancesComplete();
  }

  /** What the decompressor relies on: sent in its form, the block stands for its records after `prior`. */
  ghost predicate Faithful(form: Form, prior: seq<Record>, rs: seq<Record>) {
    Sendable(form, rs) && (form.Plain? ==> Expand(prior + rs) == Expand(prior) + form.data)
  }

  /** A block of any form, behind its final bit. `ok` is false when the input is found to be malformed. */
  method InflateForm(bitBuf: Input, out: array<nat>, pos0: nat, ghost form: Form, ghost at: nat,
                     ghost prior: seq<Record>,
                     ghost rs: seq<Record>, ghost rest: seq<Field>)
    returns (ok: bool, pos: nat, left: Input)
    requires Faithful(form, prior, rs) && Fit(rest) && bitBuf == InputOf(FormFields(form, rs, at) + rest)
    requires (at + bitBuf.count) % 8 == 0
    requires pos0 <= out.Length && Follows(prior, rs, out[..pos0], 0, out.Length)
    modifies out
    ensures ok && left == InputOf(rest) && pos <= out.Length && out[..pos] == Expand(prior + rs)
  {
    hide Stream, Width, Fit, Fits, BlockOk, AllCoded, EndField, BodyFields, Packed, Follows, AreBytes, Sendable,
         FormFields, Padding, ByteFields, LengthWords, Remaining, RecordsOk, Expand;
    FormSplits(form, rs, at, rest);
    ghost var after := AfterType(form, rs, at, rest);
    var kind;
    kind, left := ReadKind(bitBuf, Kind(form), after);
    if kind == 0 {
      FollowsStored(form, prior, rs, out[..pos0], out.Length);
      ok, pos, left := InflateStored(left, out, pos0, form.data, at + 2, rest);
    } else if kind == 1 {
      ok, pos, left := InflateFixed(left, out, pos0, prior, rs, rest);
    } else if kind == 2 {
      DynamicParts(form, rs);
      ok, pos, left := InflateDynamic(left, out, pos0, form.h, form.s0, form.s1, prior, rs, rest);
    } else {
      ok, pos := false, pos0;
    }
  }

  lemma FollowsStored(form: Form, prior: seq<Record>, rs: seq<Record>, out: seq<nat>, room: nat)
    requires Faithful(form, prior, rs) && form.Plain? && Follows(prior, rs, out, 0, room)
    ensures AreBytes(form.data) && |form.data| < 65536
    ensures |out| + |form.data| <= room && out + form.data == Expand(prior + rs)
  {
    hide Expand, RecordsOk, AreBytes;
    assert prior + rs[..0] == prior;
  }

  lemma DynamicParts(form: Form, rs: seq<Record>)
    requires Sendable(form, rs) && form.Dynamic?
    ensures BlockOk(form.h, rs, form.s0, form.s1)
  {
    hide BlockOk;
  }

  /** The type of the block. */
  method ReadKind(bitBuf: Input, ghost kind0: nat, ghost after: seq<Field>) returns (kind: nat, left: Input)
    requires kind0 < 3 && Fit(after) && bitBuf == InputOf([Field(kind0, 2)] + after)
    ensures kind == kind0 && left == InputOf(after) && left.count + 2 == bitBuf.count
  {
    hide InputOf;
    assert Pow2(2) == 4;
    ghost var fs := [Field(kind0, 2)] + after;
    assert fs[1..] == after;
    CountFront(fs);
    kind, left := DynamicHeader.GetBits(bitBuf, 2, fs);
  }

  method InflateFixed(bitBuf: Input, out: array<nat>, pos0: nat, ghost prior: seq<Record>, ghost rs: seq<Record>,
                      ghost rest: seq<Field>)
    returns (ok: bool, pos: nat, left: Input)
    requires Sendable(Fixed, rs) && Fit(rest)
    requires bitBuf == InputOf(Remaining(rs, 0, FixedLiterals(), FixedDistances(), rest))
    requires pos0 <= out.Length && Follows(prior, rs, out[..pos0], 0, out.Length)
    modifies out
    ensures ok && left == InputOf(rest) && pos <= out.Length && out[..pos] == Expand(prior + rs)
  {
    hide InputOf, Fit, Fits, AllCoded, Packed, Follows, InflateTable.Holds, Remaining, FixedLiterals, FixedDistances;
    FixedFits();
    var look0, tree0, look1, tree1;
    ghost var paths0, paths1;
    look0, tree0, paths0, look1, tree1, paths1 := FixedTables();
    ghost var (s0, s1) := (FixedLiterals(), FixedDistances());
    assert s0[..288] == s0 && s1[..32] == s1;
    ok := true;
    pos, left := InflateBlock(bitBuf, out, pos0, look0, tree0, look1, tree1, s0, 288, paths0, s1, 32, paths1,
                              prior, rs, rest);
  }

  method InflateDynamic(bitBuf: Input, out: array<nat>, pos0: nat, ghost h: DynamicHeader.Header,
                        ghost s0: seq<nat>, ghost s1: seq<nat>, ghost prior: seq<Record>, ghost rs: seq<Record>,
                        ghost rest: seq<Field>)
    returns (ok: bool, pos: nat, left: Input)
    requires BlockOk(h, rs, s0, s1) && Fit(rest)
    requires bitBuf == InputOf(DynamicHeader.HeaderFields(h) + Remaining(rs, 0, s0, s1, rest))
    requires pos0 <= out.Length && Follows(prior, rs, out[..pos0], 0, out.Length)
    modifies out
    ensures ok && left == InputOf(rest) && pos <= out.Length && out[..pos] == Expand(prior + rs)
  {
    hide InputOf, Fit, Fits, BlockOk, DynamicHeader.HeaderOk, DynamicHeader.HeaderFields, AllCoded, Remaining,
         Packed, Follows, InflateTable.Accepted, InflateTable.Holds;
    BlockParts(h, rs, s0, s1);
    ghost var after := Remaining(rs, 0, s0, s1, rest);
    var look0, tree0 := new int[InflateTable.FAST_SIZE], new int[2 * DynamicHeader.LITERALS];
    var look1, tree1 := new int[InflateTable.FAST_SIZE], new int[2 * DynamicHeader.DISTANCES];
    RemainingFit(rs, 0, s0, s1, rest);
    HeaderParts(h, rs, s0, s1);
    ghost var paths0, paths1;
    ok, left, paths0, paths1 := DynamicHeader.ReadDynamicHeader(bitBuf, look0, tree0, look1, tree1, h, after, s0, s1);
    TrimmedFits(s0, h.lit);
    TrimmedFits(s1, h.dist);
    pos, left := InflateBlock(left, out, pos0, look0, tree0, look1, tree1, s0, h.lit, paths0, s1, h.dist, paths1,
                              prior, rs, rest);
  }

  lemma HeaderParts(h: DynamicHeader.Header, rs: seq<Record>, s0: seq<nat>, s1: seq<nat>)
    requires BlockOk(h, rs, s0, s1)
    ensures DynamicHeader.Describes(h, s0, s1) && InflateTable.Accepted(s0) && InflateTable.Accepted(s1)
  {
  }

  lemma TrimmedFits(s: seq<nat>, n: nat)
    requires n <= |s| && DynamicHeader.ZeroFrom(s, n) && InflateTable.Accepted(s)
    ensures Fits(s[..n])
  {
    hide InflateTable.Accepted, Fits;
    DynamicHeader.TrimAccepted(s, n);
    InflateTable.AcceptedFits(s[..n]);
  }
}
