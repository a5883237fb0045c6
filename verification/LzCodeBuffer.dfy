/** `m_lz_code_buf`: literals and matches, eight to a flag byte, with the symbol counts of the block. */
module LzCodeBuffer {
  import opened Bits
  import opened DeflateSymbols
  import opened LzRecords
  import Optimality

  const BUF_SIZE: nat := 65536

  // ---- How records are laid out ----

  function Payload(r: Record): seq<nat> {
    match r
    case Literal(b) => [b]
    case Match(len, dist) => if len >= 3 && dist >= 1 then [len - 3, (dist - 1) % 256, (dist - 1) / 256] else []
  }

  function Payloads(g: seq<Record>): seq<nat> {
    if g == [] then [] else Payloads(g[..|g| - 1]) + Payload(g[|g| - 1])
  }

  function FlagBits(g: seq<Record>): nat {
    if g == [] then 0 else (if g[0].Match? then 1 else 0) + 2 * FlagBits(g[1..])
  }

  function Group(g: seq<Record>): seq<nat> {
    [FlagBits(g)] + Payloads(g)
  }

  function Groups(gs: seq<seq<Record>>): seq<nat> {
    if gs == [] then [] else Groups(gs[..|gs| - 1]) + Group(gs[|gs| - 1])
  }

  function Flatten(gs: seq<seq<Record>>): seq<Record> {
    if gs == [] then [] else Flatten(gs[..|gs| - 1]) + gs[|gs| - 1]
  }

  lemma {:induction false} FlagAppend(g: seq<Record>, r: Record)
    ensures FlagBits(g + [r]) == FlagBits(g) + if r.Match? then Pow2(|g|) else 0
    ensures FlagBits(g) < Pow2(|g|)
  {
    if g == [] {
      assert [r][1..] == [];
    } else {
      FlagAppend(g[1..], r);
      assert (g + [r])[1..] == g[1..] + [r];
    }
  }

  lemma PayloadsAppend(g: seq<Record>, r: Record)
    ensures Payloads(g + [r]) == Payloads(g) + Payload(r)
  {
    assert (g + [r])[..|g|] == g;
  }

  /** The flag byte holds the flags of the group so far above `left` bits that do not matter. */
  ghost predicate FlagsAbove(x: nat, g: seq<Record>, left: nat) {
    x < 256 && x / Pow2(left) == FlagBits(g)
  }

  /** Shifting in the flag of one more record. */
  lemma ShiftFlag(x: nat, g: seq<Record>, left: nat, r: Record)
    requires FlagsAbove(x, g, left) && left > 0 && |g| + left == 8
    ensures FlagsAbove(x / 2 + (if r.Match? then 128 else 0), g + [r], left - 1)
  {
    hide FlagBits;
    FlagAppend(g, r);
    Pow2Add(|g|, left - 1);
    assert Pow2(2) == 4 && Pow2(7) == 128 by { assert Pow2(7) == 16 * Pow2(3); }
    ShiftHalf(x, Pow2(left - 1), if r.Match? then Pow2(|g|) else 0);
  }

  lemma ShiftHalf(x: nat, p: nat, m: nat)
    requires p > 0
    ensures (x / 2 + m * p) / p == x / (2 * p) + m
  {
    HalfDivMod(x, p);
    DivPlus(x / 2, p, m);
  }

  lemma DivPlus(y: nat, p: nat, m: nat)
    requires p > 0
    ensures (y + m * p) / p == y / p + m
  {
    var (q, s, z) := (y / p, y % p, y + m * p);
    assert z == p * (q + m) + s by {
      assert y == p * q + s;
      assert p * (q + m) == p * q + m * p;
    }
    DivModUnique(z, p, q + m, s);
  }

  // ---- The symbol counts ----

  /** The symbols of `r` have been counted. */
  ghost predicate HasSymbols(r: Record, lit: seq<nat>, dist: seq<nat>)
    requires |lit| == 288 && |dist| == 32
  {
    RecordOk(r)
    && match r
       case Literal(b) => lit[b] > 0
       case Match(len, d) => lit[LenSym(len - MIN_MATCH)] > 0 && dist[DistSym(d - 1)] > 0
  }

  ghost predicate CountsOk(rs: seq<Record>, lit: seq<nat>, dist: seq<nat>) {
    && |lit| == 288 && |dist| == 32
    && Optimality.Sum(lit) == |rs| && Optimality.Sum(dist) <= |rs|
    && lit[286] == lit[287] == lit[256] == 0 && dist[30] == dist[31] == 0
    && (forall i :: 0 <= i < |rs| ==> HasSymbols(rs[i], lit, dist))
  }

  lemma MoreCounts(r: Record, lit: seq<nat>, dist: seq<nat>, lit': seq<nat>, dist': seq<nat>)
    requires |lit| == |lit'| == 288 && |dist| == |dist'| == 32 && HasSymbols(r, lit, dist)
    requires forall i :: 0 <= i < 288 ==> lit[i] <= lit'[i]
    requires forall i :: 0 <= i < 32 ==> dist[i] <= dist'[i]
    ensures HasSymbols(r, lit', dist')
  {
    if r.Match? {
      SymbolsBounded(r.len, r.dist);
    }
  }

  lemma CountsMore(rs: seq<Record>, r: Record, lit: seq<nat>, dist: seq<nat>, lit': seq<nat>, dist': seq<nat>)
    requires CountsOk(rs, lit, dist) && |lit'| == 288 && |dist'| == 32 && HasSymbols(r, lit', dist')
    requires forall i :: 0 <= i < 288 ==> lit[i] <= lit'[i]
    requires forall i :: 0 <= i < 32 ==> dist[i] <= dist'[i]
    requires Optimality.Sum(lit') == Optimality.Sum(lit) + 1 && Optimality.Sum(dist') <= Optimality.Sum(dist) + 1
    requires lit'[286] == lit'[287] == lit'[256] == 0 && dist'[30] == dist'[31] == 0
    ensures CountsOk(rs + [r], lit', dist')
  {
    hide Optimality.Sum;
    var more := rs + [r];
    forall i | 0 <= i < |more| ensures HasSymbols(more[i], lit', dist') {
      if i < |rs| {
        assert HasSymbols(rs[i], lit, dist);
        MoreCounts(rs[i], lit, dist, lit', dist');
      }
    }
  }

  lemma CountLiteral(rs: seq<Record>, lit: seq<nat>, dist: seq<nat>, b: nat)
    requires CountsOk(rs, lit, dist) && b < 256
    ensures CountsOk(rs + [Literal(b)], lit[b := lit[b] + 1], dist)
  {
    hide Optimality.Sum;
    Optimality.UpdateSum(lit, b, lit[b] + 1);
    CountsMore(rs, Literal(b), lit, dist, lit[b := lit[b] + 1], dist);
  }

  lemma CountMatch(rs: seq<Record>, lit: seq<nat>, dist: seq<nat>, len: nat, d: nat)
    requires CountsOk(rs, lit, dist) && RecordOk(Match(len, d))
    ensures var (l, s) := (LenSym(len - MIN_MATCH), DistSym(d - 1));
            257 <= l <= 285 && s < 30 && CountsOk(rs + [Match(len, d)], lit[l := lit[l] + 1], dist[s := dist[s] + 1])
  {
    SymbolsBounded(len, d);
    hide Optimality.Sum, LenSym, DistSym;
    var (l, s) := (LenSym(len - MIN_MATCH), DistSym(d - 1));
    Optimality.UpdateSum(lit, l, lit[l] + 1);
    Optimality.UpdateSum(dist, s, dist[s] + 1);
    CountsMore(rs, Match(len, d), lit, dist, lit[l := lit[l] + 1], dist[s := dist[s] + 1]);
  }

  lemma SymbolsBounded(len: nat, d: nat)
    requires RecordOk(Match(len, d))
    ensures 257 <= LenSym(len - MIN_MATCH) <= 285 && DistSym(d - 1) < 30
  {
  }

  /** How many bytes the records stand for: `m_total_lz_bytes`. */
  function Size(rs: seq<Record>): nat {
    if rs == [] then 0
    else Size(rs[..|rs| - 1]) + match rs[|rs| - 1] case Literal(_) => 1 case Match(len, _) => len
  }

  /** The fields of `tdefl_compressor` that hold the records of the current block. */
  class CodeBuffer {
    const buf: array<nat>
    const litCounts: array<nat>
    const distCounts: array<nat>
    var pos: nat
    var flagsPos: nat
    var flagsLeft: nat
    var totalBytes: nat
    ghost var full: seq<seq<Record>>
    ghost var last: seq<Record>

    constructor ()
      ensures Valid() && Records() == [] && pos == 1
      ensures fresh(buf) && fresh(litCounts) && fresh(distCounts)
    {
      buf := new nat[BUF_SIZE](_ => 0);
      litCounts := new nat[288](_ => 0);
      distCounts := new nat[32](_ => 0);
      pos, flagsPos, flagsLeft, totalBytes := 1, 0, 8, 0;
      full, last := [], [];
      new;
      Optimality.ZeroSum(litCounts[..]);
      Optimality.ZeroSum(distCounts[..]);
    }

    /** The records of the block so far. */
    ghost function Records(): seq<Record>
      reads this
    {
      Flatten(full) + last
    }

    /** Full groups, then a flag byte in the making, then the records it is for. */
    ghost predicate Laid()
      reads this, buf
    {
      && buf.Length == BUF_SIZE && flagsPos < pos <= BUF_SIZE && 1 <= flagsLeft <= 8 && |last| == 8 - flagsLeft
      && (forall i :: 0 <= i < |full| ==> |full[i]| == 8)
      && buf[..flagsPos] == Groups(full) && buf[flagsPos + 1..pos] == Payloads(last)
      && FlagsAbove(buf[flagsPos], last, flagsLeft) && (forall i :: 0 <= i < BUF_SIZE ==> buf[i] < 256)
    }

    ghost predicate Valid()
      reads this, buf, litCounts, distCounts
    {
      && litCounts.Length == 288 && distCounts.Length == 32
      && buf != litCounts && buf != distCounts && litCounts != distCounts
      && Laid() && CountsOk(Records(), litCounts[..], distCounts[..])
      && |Records()| < pos && totalBytes == Size(Records())
    }

    /** The records in the groups in which the buffer holds them. */
    ghost function AllGroups(): seq<seq<Record>>
      reads this
    {
      if last == [] then full else full + [last]
    }

    /** The end of a block: the last flag byte is brought into place, or dropped when it has no records. */
    method Finish()
      requires Valid()
      modifies this`pos, buf
      ensures pos <= BUF_SIZE == buf.Length && buf[..pos] == Groups(AllGroups())
              && (forall i :: 0 <= i < BUF_SIZE ==> buf[i] < 256)
      ensures Flatten(AllGroups()) == Records() && GroupsOk(AllGroups())
    {
      hide Payloads, FlagBits, CountsOk, Groups, Flatten, FlagsAbove, GroupsOk, Pow2, Size;
      ghost var b := buf[..];
      FinishedGroups(b, flagsPos, pos, flagsLeft, full, last);
      Shrinks(buf[flagsPos], Pow2(flagsLeft));
      buf[flagsPos] := buf[flagsPos] / Pow2(flagsLeft);
      if flagsLeft == 8 {
        pos := pos - 1;
      }
      assert buf[..] == b[flagsPos := b[flagsPos] / Pow2(flagsLeft)];
    }

    /** An empty buffer for the next block. */
    method Reset()
      requires litCounts.Length == 288 && distCounts.Length == 32 && buf.Length == BUF_SIZE
      requires buf != litCounts && buf != distCounts && litCounts != distCounts
               && (forall i :: 0 <= i < BUF_SIZE ==> buf[i] < 256)
      modifies this, litCounts, distCounts
      ensures Valid() && Records() == [] && pos == 1
    {
      hide CountsOk;
      forall i | 0 <= i < litCounts.Length { litCounts[i] := 0; }
      forall i | 0 <= i < distCounts.Length { distCounts[i] := 0; }
      pos, flagsPos, flagsLeft, totalBytes := 1, 0, 8, 0;
      full, last := [], [];
      NewFlags(buf[0]);
      EmptyCounts(litCounts[..], distCounts[..]);
    }

    /** The flag of a record whose bytes have just been written; a new flag byte after every eight. */
    method PutFlag(ghost r: Record)
      requires buf.Length == BUF_SIZE && flagsPos < pos < BUF_SIZE && 1 <= flagsLeft <= 8 && |last| == 8 - flagsLeft
      requires (forall i :: 0 <= i < |full| ==> |full[i]| == 8) && buf[..flagsPos] == Groups(full)
      requires buf[flagsPos + 1..pos] == Payloads(last + [r])
      requires FlagsAbove(buf[flagsPos], last + [r], flagsLeft - 1) && (forall i :: 0 <= i < BUF_SIZE ==> buf[i] < 256)
      modifies this`pos, this`flagsPos, this`flagsLeft, this`full, this`last
      ensures Laid() && Records() == old(Records()) + [r] && old(pos) <= pos <= old(pos) + 1
    {
      hide FlagBits, Payloads;
      assert Flatten(full) + last + [r] == Flatten(full) + (last + [r]);
      last := last + [r];
      flagsLeft := flagsLeft - 1;
      if flagsLeft == 0 {
        flagsLeft := 8;
        GroupDone(buf[..], flagsPos, pos, full, last);
        full := full + [last];
        last := [];
        flagsPos := pos;
        pos := pos + 1;
        assert buf[flagsPos + 1..pos] == [];
        NewFlags(buf[flagsPos]);
      }
    }

    /** `tdefl_record_literal` */
    method RecordLiteral(lit: nat)
      requires Valid() && lit < 256 && pos + 2 <= BUF_SIZE
      modifies this, buf, litCounts
      ensures Valid() && Records() == old(Records()) + [Literal(lit)] && pos <= old(pos) + 2
    {
      hide FlagBits, Payloads, Flatten, Groups, Size, CountsOk, Optimality.Sum, FlagsAbove;
      ghost var (r, rs) := (Literal(lit), Records());
      totalBytes := totalBytes + 1;
      SizeMore(rs, r);
      ghost var (b, g) := (buf[..], last);
      ShiftFlag(buf[flagsPos], last, flagsLeft, r);
      PayloadsAppend(last, r);
      buf[pos] := lit;
      pos := pos + 1;
      buf[flagsPos] := buf[flagsPos] / 2;
      assert buf[..flagsPos] == b[..flagsPos];
      assert buf[flagsPos + 1..pos] == b[flagsPos + 1..pos - 1] + [lit];
      PutFlag(r);
      CountLiteral(rs, litCounts[..], distCounts[..], lit);
      ghost var l := litCounts[..];
      litCounts[lit] := litCounts[lit] + 1;
      assert litCounts[..] == l[lit := l[lit] + 1];
    }

    /** `tdefl_record_match` */
    method RecordMatch(len: nat, dist: nat)
      requires Valid() && RecordOk(Match(len, dist)) && pos + 4 <= BUF_SIZE
      modifies this, buf, litCounts, distCounts
      ensures Valid() && Records() == old(Records()) + [Match(len, dist)] && pos <= old(pos) + 4
    {
      hide FlagBits, Payloads, Flatten, Groups, Size, CountsOk, Optimality.Sum, FlagsAbove, DistSym, LenSym;
      ghost var (r, rs) := (Match(len, dist), Records());
      totalBytes := totalBytes + len;
      SizeMore(rs, r);
      PutMatch(len, dist);
      CountMatch(rs, litCounts[..], distCounts[..], len, dist);
      CountRows(len, dist);
    }

    /** The three bytes of a match and its flag. */
    method PutMatch(len: nat, dist: nat)
      requires Laid() && RecordOk(Match(len, dist)) && pos + 4 <= BUF_SIZE
      modifies this`pos, this`flagsPos, this`flagsLeft, this`full, this`last, buf
      ensures Laid() && Records() == old(Records()) + [Match(len, dist)] && old(pos) + 3 <= pos <= old(pos) + 4
    {
      hide FlagBits, Payloads, Flatten, Groups;
      ghost var r := Match(len, dist);
      ghost var b := buf[..];
      ShiftFlag(buf[flagsPos], last, flagsLeft, r);
      PayloadsAppend(last, r);
      var d: nat := dist - 1;
      buf[pos] := len - MIN_MATCH;
      buf[pos + 1] := d % 256;
      buf[pos + 2] := d / 256;
      pos := pos + 3;
      buf[flagsPos] := buf[flagsPos] / 2 + 128;
      assert buf[..flagsPos] == b[..flagsPos];
      assert buf[flagsPos + 1..pos] == b[flagsPos + 1..pos - 3] + [len - 3, d % 256, d / 256];
      PutFlag(r);
    }

    /** The counts of a match. */
    method CountRows(len: nat, dist: nat)
      requires RecordOk(Match(len, dist)) && litCounts.Length == 288 && distCounts.Length == 32
      requires litCounts != distCounts && LenSym(len - MIN_MATCH) < 288 && DistSym(dist - 1) < 32
      modifies litCounts, distCounts
      ensures var (l, s) := (LenSym(len - MIN_MATCH), DistSym(dist - 1));
              && litCounts[..] == old(litCounts[..])[l := old(litCounts[l]) + 1]
              && distCounts[..] == old(distCounts[..])[s := old(distCounts[s]) + 1]
    {
      hide DistSym, LenSym;
      var l, s := LenSym(len - MIN_MATCH), DistSym(dist - 1);
      distCounts[s] := distCounts[s] + 1;
      litCounts[l] := litCounts[l] + 1;
    }
  }

  /** Groups of eight, but for the last. */
  ghost predicate GroupsOk(gs: seq<seq<Record>>) {
    forall i :: 0 <= i < |gs| ==> 1 <= |gs[i]| <= 8 && (i + 1 < |gs| ==> |gs[i]| == 8)
  }

  lemma FinishedGroups(buf: seq<nat>, flagsPos: nat, pos: nat, left: nat, full: seq<seq<Record>>, last: seq<Record>)
    requires flagsPos < pos <= |buf| && buf[..flagsPos] == Groups(full) && buf[flagsPos + 1..pos] == Payloads(last)
    requires FlagsAbove(buf[flagsPos], last, left) && 1 <= left <= 8 && |last| == 8 - left
    requires forall i :: 0 <= i < |full| ==> |full[i]| == 8
    ensures var gs := if last == [] then full else full + [last];
            var buf' := buf[flagsPos := buf[flagsPos] / Pow2(left)];
            && GroupsOk(gs) && Flatten(gs) == Flatten(full) + last
            && buf'[..if last == [] then pos - 1 else pos] == Groups(gs)
  {
    hide FlagBits, FlagsAbove, Payloads, Groups, Flatten;
    var x := buf[flagsPos] / Pow2(left);
    if last == [] {
      assert Payloads(last) == [] by { EmptyGroup(); }
      assert buf[flagsPos := x][..pos - 1] == buf[..flagsPos];
    } else {
      FlagsValue(buf[flagsPos], last, left);
      FinishedGroup(buf, flagsPos, pos, full, last);
    }
  }

  lemma Shrinks(x: nat, p: nat)
    requires p > 0
    ensures x / p <= x
  {
    var q := x / p;
    if q > 0 {
      assert q * p <= x;
      GrowsWithFactor(q, p);
    }
  }

  lemma {:induction false} GrowsWithFactor(q: nat, p: nat)
    requires p > 0
    ensures q <= q * p
  {
    if p > 1 {
      GrowsWithFactor(q, p - 1);
    }
  }

  lemma EmptyGroup()
    ensures Payloads([]) == []
  {
  }

  lemma FinishedGroup(buf: seq<nat>, flagsPos: nat, pos: nat, full: seq<seq<Record>>, last: seq<Record>)
    requires flagsPos < pos <= |buf| && buf[..flagsPos] == Groups(full) && buf[flagsPos + 1..pos] == Payloads(last)
    ensures Flatten(full + [last]) == Flatten(full) + last
    ensures buf[flagsPos := FlagBits(last)][..pos] == Groups(full + [last])
  {
    hide FlagBits, Payloads;
    assert (full + [last])[..|full|] == full;
    var buf' := buf[flagsPos := FlagBits(last)];
    assert buf'[..pos] == buf[..flagsPos] + ([FlagBits(last)] + buf[flagsPos + 1..pos]);
  }

  lemma FlagsValue(x: nat, g: seq<Record>, left: nat)
    requires FlagsAbove(x, g, left)
    ensures x / Pow2(left) == FlagBits(g)
  {
  }

  lemma SizeMore(rs: seq<Record>, r: Record)
    ensures Size(rs + [r]) == Size(rs) + match r case Literal(_) => 1 case Match(len, _) => len
  {
    assert (rs + [r])[..|rs|] == rs;
  }

  lemma NewFlags(x: nat)
    requires x < 256
    ensures FlagsAbove(x, [], 8) && Payloads([]) == []
  {
    assert Pow2(8) == 256 by { assert Pow2(8) == 32 * Pow2(3); }
  }

  /** Eight flags fill the byte. */
  lemma WholeFlags(byte: nat, g: seq<Record>)
    requires FlagsAbove(byte, g, 0)
    ensures byte == FlagBits(g)
  {
    assert Pow2(0) == 1;
    FlagsValue(byte, g, 0);
  }

  lemma GroupDone(buf: seq<nat>, flagsPos: nat, pos: nat, full: seq<seq<Record>>, last: seq<Record>)
    requires flagsPos < pos <= |buf| && buf[..flagsPos] == Groups(full) && buf[flagsPos + 1..pos] == Payloads(last)
    requires FlagsAbove(buf[flagsPos], last, 0)
    ensures buf[..pos] == Groups(full + [last])
    ensures Flatten(full + [last]) + [] == Flatten(full) + last
  {
    hide FlagBits, Payloads, FlagsAbove, Groups, Flatten;
    WholeFlags(buf[flagsPos], last);
    FinishedGroup(buf, flagsPos, pos, full, last);
    assert buf[flagsPos := FlagBits(last)] == buf;
  }

  lemma EmptyCounts(lit: seq<nat>, dist: seq<nat>)
    requires |lit| == 288 && |dist| == 32
    requires (forall i :: 0 <= i < 288 ==> lit[i] == 0) && (forall i :: 0 <= i < 32 ==> dist[i] == 0)
    ensures CountsOk([], lit, dist)
  {
    hide Optimality.Sum;
    Optimality.ZeroSum(lit);
    Optimality.ZeroSum(dist);
  }
}
