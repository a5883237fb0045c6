/** The header of a dynamic block, section 3.2.7 of RFC 1951, written bit for bit by `tdefl_start_dynamic_block`
    and read back by `tinfl_decompress`. */
module DynamicHeader {
  import opened Bits
  import opened BitStream
  import opened CanonicalCode
  import opened CodeLengthCoding
  import HuffmanTable
  import InflateTable

  /** The order in which the lengths of the code length code are sent. */
  const SWIZZLE: seq<nat> := [16, 17, 18, 0, 8, 7, 9, 6, 10, 5, 11, 4, 12, 3, 13, 2, 14, 1, 15]

  // ---- The code lengths, as fields of bits ----

  function FieldsOf(it: Item, sizes: seq<nat>): seq<Field>
    requires it.sym < |sizes|
  {
    [Field(Packed(sizes, it.sym), sizes[it.sym])]
    + if it.sym >= 16 then [Field(it.extra, ExtraBits(it.sym))] else []
  }

  ghost predicate Sendable(items: seq<Item>, sizes: seq<nat>) {
    forall i :: 0 <= i < |items| ==> items[i].sym < |sizes| && sizes[items[i].sym] > 0
  }

  function ItemFields(items: seq<Item>, sizes: seq<nat>): seq<Field>
    requires Sendable(items, sizes)
  {
    if items == [] then [] else FieldsOf(items[0], sizes) + ItemFields(items[1..], sizes)
  }

  lemma {:induction false} ItemFieldsAppend(items: seq<Item>, k: nat, sizes: seq<nat>)
    requires Sendable(items, sizes) && k < |items|
    ensures ItemFields(items[..k + 1], sizes) == ItemFields(items[..k], sizes) + FieldsOf(items[k], sizes)
  {
    if k == 0 {
      assert items[..1][1..] == [] && items[..0] == [];
    } else {
      ItemFieldsAppend(items[1..], k - 1, sizes);
      assert items[..k + 1][1..] == items[1..][..k] && items[..k][1..] == items[1..][..k - 1];
    }
  }

  lemma {:induction false} FlatPrefix(items: seq<Item>, k: nat)
    requires k <= |items|
    ensures Flat(items[..k]) <= Flat(items) && |Flat(items)| >= |items|
    ensures k < |items| ==> |Flat(items[..k])| + (if items[k].sym < 16 then 1 else 2) <= |Flat(items)|
    ensures k < |items| ==> Flat(items)[|Flat(items[..k])|] == items[k].sym
    ensures k < |items| && items[k].sym >= 16 ==> Flat(items)[|Flat(items[..k])| + 1] == items[k].extra
  {
    if k < |items| {
      var n := |items| - 1;
      FlatPrefix(items[..n], k);
      assert items[..n][..k] == items[..k];
    } else {
      assert items[..k] == items;
      if items != [] {
        FlatPrefix(items[..|items| - 1], |items| - 1);
      }
    }
  }

  lemma FlatNext(items: seq<Item>, k: nat)
    requires k < |items|
    ensures Flat(items[..k + 1]) ==
            Flat(items[..k]) + if items[k].sym < 16 then [items[k].sym] else [items[k].sym, items[k].extra]
  {
    assert items[..k + 1][..k] == items[..k];
  }

  ghost predicate Codes(codes: seq<nat>, sizes: seq<nat>) {
    |codes| >= |sizes| && forall i :: 0 <= i < |sizes| && sizes[i] > 0 ==> codes[i] == Packed(sizes, i)
  }

  /** The last loop of `tdefl_start_dynamic_block`. */
  method SendItems(w: BitWriter, packed: array<nat>, num: nat, codes: array<nat>, codeSizes: array<nat>,
                   ghost items: seq<Item>, ghost sizes: seq<nat>)
    requires w.Valid() && num <= packed.Length && packed[..num] == Flat(items) && ItemsOk(items)
    requires |sizes| <= codeSizes.Length <= codes.Length && codeSizes[..|sizes|] == sizes && Codes(codes[..], sizes)
    requires Sendable(items, sizes) && Fits(sizes)
    modifies w
    ensures w.Valid() && w.sent == old(w.sent) + ItemFields(items, sizes) && old(w.output) <= w.output
  {
    hide ItemFields, FieldsOf, Flat, Fits, Packed, Stream, Width, Bytes;
    ghost var k := 0;
    ghost var sent := w.sent;
    var index := 0;
    NoFields(sizes);
    assert items[..0] == [];
    while index < num
      invariant k <= |items| && index == |Flat(items[..k])| <= num
      invariant w.Valid() && w.sent == sent + ItemFields(items[..k], sizes) && old(w.output) <= w.output
      decreases num - index
    {
      ItemNext(items, k, sizes, sent, packed[..num]);
      index := SendItem(w, packed, index, codes, codeSizes, items[k], sizes);
      k := k + 1;
    }
    AllSent(items, k);
  }

  lemma ItemNext(items: seq<Item>, k: nat, sizes: seq<nat>, sent: seq<Field>, flat: seq<nat>)
    requires k <= |items| && |Flat(items[..k])| < |Flat(items)| && flat == Flat(items)
    requires ItemsOk(items) && Sendable(items, sizes) && Fits(sizes)
    ensures k < |items|
    ensures var (it, i) := (items[k], |Flat(items[..k])|);
            && flat[i] == it.sym && (it.sym >= 16 ==> i + 1 < |flat| && flat[i + 1] == it.extra)
            && Packed(sizes, it.sym) < Pow2(sizes[it.sym]) && sizes[it.sym] <= 15 && it.extra < Pow2(ExtraBits(it.sym))
            && |Flat(items[..k + 1])| == i + (if it.sym < 16 then 1 else 2) <= |flat|
            && sent + ItemFields(items[..k], sizes) + FieldsOf(it, sizes) == sent + ItemFields(items[..k + 1], sizes)
  {
    hide ItemFields, FieldsOf, Flat, Fits, Packed, ItemsOk, Pow2;
    MoreItems(items, k);
    FlatPrefix(items, k);
    FlatNext(items, k);
    ItemFieldsAppend(items, k, sizes);
    FieldsFit(items, k, sizes);
  }

  /** The body of that loop. */
  method SendItem(w: BitWriter, packed: array<nat>, index0: nat, codes: array<nat>, codeSizes: array<nat>,
                  ghost it: Item, ghost sizes: seq<nat>) returns (index: nat)
    requires w.Valid() && index0 < packed.Length && packed[index0] == it.sym
    requires it.sym >= 16 ==> index0 + 1 < packed.Length && packed[index0 + 1] == it.extra
    requires it.sym < |sizes| <= codeSizes.Length <= codes.Length && codeSizes[it.sym] == sizes[it.sym] <= 15
    requires codes[it.sym] == Packed(sizes, it.sym) < Pow2(sizes[it.sym]) && it.extra < Pow2(ExtraBits(it.sym))
    modifies w
    ensures w.Valid() && w.sent == old(w.sent) + FieldsOf(it, sizes) && old(w.output) <= w.output
    ensures index == index0 + if it.sym < 16 then 1 else 2
  {
    hide Packed, Stream, Width, Bytes, Pow2, Fit;
    var code := packed[index0];
    index := index0 + 1;
    w.PutBits(codes[code], codeSizes[code]);
    if code >= 16 {
      w.PutBits(packed[index], ExtraBits(code));
      index := index + 1;
    }
  }

  lemma NoFields(sizes: seq<nat>)
    ensures ItemFields([], sizes) == [] && Flat([]) == []
  {
  }

  lemma MoreItems(items: seq<Item>, k: nat)
    requires k <= |items| && |Flat(items[..k])| < |Flat(items)|
    ensures k < |items|
  {
    assert items[..|items|] == items;
  }

  lemma AllSent(items: seq<Item>, k: nat)
    requires k <= |items| && |Flat(items[..k])| == |Flat(items)|
    ensures items[..k] == items
  {
    if k < |items| {
      FlatPrefix(items, k);
    }
  }

  lemma FieldsFit(items: seq<Item>, k: nat, sizes: seq<nat>)
    requires ItemsOk(items) && Sendable(items, sizes) && Fits(sizes) && k < |items|
    ensures var it := items[k];
            && Packed(sizes, it.sym) < Pow2(sizes[it.sym]) && sizes[it.sym] <= 15
            && it.extra < Pow2(ExtraBits(it.sym)) && ExtraBits(it.sym) <= 7 && Fit(FieldsOf(it, sizes))
  {
    hide Packed, Expand, Pow2, Count, First;
    assert ItemOk(items[k], Expand(items[..k]));
    CodeBound(sizes, items[k].sym);
  }

  // ---- Reading the code lengths back ----

  lemma {:induction false} ExpandPrefix(items: seq<Item>, k: nat)
    requires ItemsOk(items) && k <= |items|
    ensures Expand(items[..k]) <= Expand(items)
    ensures k < |items| ==> |Expand(items[..k])| + |RunOf(items[k], Expand(items[..k]))| <= |Expand(items)|
    ensures k < |items| ==> |Expand(items[..k])| < |Expand(items)|
    decreases |items| - k
  {
    hide Expand, ItemsOk, RunOf;
    if k < |items| {
      ExpandPrefix(items, k + 1);
      ExpandNext(items, k);
      RunNotEmpty(items, k);
    } else {
      assert items[..k] == items;
    }
  }

  lemma RunNotEmpty(items: seq<Item>, k: nat)
    requires ItemsOk(items) && k < |items|
    ensures 1 <= |RunOf(items[k], Expand(items[..k]))| <= 138
  {
    assert ItemOk(items[k], Expand(items[..k]));
    assert Pow2(2) == 4 && Pow2(3) == 8 && Pow2(7) == 16 * Pow2(3);
  }

  lemma ExpandNext(items: seq<Item>, k: nat)
    requires k < |items|
    ensures Expand(items[..k + 1]) == Expand(items[..k]) + RunOf(items[k], Expand(items[..k]))
  {
    assert items[..k + 1][..k] == items[..k];
  }

  /** `TINFL_GET_BITS` */
  method GetBits(bitBuf: Input, n: nat, ghost fs: seq<Field>) returns (v: nat, rest: Input)
    requires fs != [] && Fit(fs) && bitBuf == InputOf(fs) && fs[0].len == n
    ensures v == fs[0].bits && rest == InputOf(fs[1..])
  {
    ReadField(fs);
    v := Low(bitBuf.bits, n);
    rest := Skip(bitBuf, n);
  }

  /** One symbol of the code length alphabet and its extra bits. */
  method ReadItem(bitBuf: Input, look: array<int>, tree: array<int>, ghost sizes: seq<nat>,
                  ghost paths: seq<InflateTable.Path>,
                  ghost it: Item, ghost rest: seq<Field>)
    returns (sym: int, extra: nat, left: Input)
    requires InflateTable.Holds(sizes, |sizes|, |sizes|, look[..], tree[..], paths) && Fits(sizes)
    requires it.sym < |sizes| && sizes[it.sym] > 0 && Fit(FieldsOf(it, sizes) + rest)
    requires bitBuf == InputOf(FieldsOf(it, sizes) + rest)
    ensures sym == it.sym && left == InputOf(rest) && (it.sym >= 16 ==> extra == it.extra)
  {
    hide InflateTable.Holds, Packed, Fits, InputOf, Low, Fit;
    ghost var fs := FieldsOf(it, sizes) + rest;
    ReadField(fs);
    assert fs[0] == Field(Packed(sizes, it.sym), sizes[it.sym]);
    var codeLen;
    sym, codeLen := InflateTable.HuffDecode(look, tree, bitBuf.bits, sizes, paths, it.sym);
    left := Skip(bitBuf, codeLen);
    extra := 0;
    if sym >= 16 {
      FitRest(fs);
      assert fs[1] == Field(it.extra, ExtraBits(it.sym)) && fs[1..][1..] == rest;
      extra, left := GetBits(left, ExtraBits(sym), fs[1..]);
    } else {
      assert fs[1..] == rest;
    }
  }

  lemma FitRest(fs: seq<Field>)
    requires Fit(fs) && fs != []
    ensures Fit(fs[1..])
  {
  }

  /** Writing `n` copies of `v`, as `memset` does. */
  method Fill(a: array<nat>, start: nat, n: nat, v: nat)
    requires start + n <= a.Length
    modifies a
    ensures a[..start + n] == old(a[..start]) + Repeat(v, n)
  {
    for i := 0 to n
      invariant a[..start + i] == old(a[..start]) + Repeat(v, i)
    {
      a[start + i] := v;
      assert a[..start + i + 1] == a[..start + i] + [v];
    }
  }

  lemma {:induction false} ItemFieldsFit(items: seq<Item>, k: nat, sizes: seq<nat>)
    requires ItemsOk(items) && Sendable(items, sizes) && Fits(sizes) && k <= |items|
    ensures Fit(ItemFields(items[k..], sizes))
    decreases |items| - k
  {
    hide Fits, ItemsOk, Fit, FieldsOf;
    if k < |items| {
      ItemFieldsFit(items, k + 1, sizes);
      FieldsFit(items, k, sizes);
      assert items[k..][1..] == items[k + 1..];
      FitConcat(FieldsOf(items[k], sizes), ItemFields(items[k + 1..], sizes));
    } else {
      assert items[k..] == [];
      FitNone();
      NoFields(sizes);
    }
  }

  lemma FitNone()
    ensures Fit([])
  {
  }

  lemma FitConcat(fs: seq<Field>, gs: seq<Field>)
    requires Fit(fs) && Fit(gs)
    ensures Fit(fs + gs)
  {
    hide Pow2;
  }

  lemma ItemFieldsFront(items: seq<Item>, k: nat, sizes: seq<nat>)
    requires Sendable(items, sizes) && k < |items|
    ensures ItemFields(items[k..], sizes) == FieldsOf(items[k], sizes) + ItemFields(items[k + 1..], sizes)
  {
    assert items[k..][1..] == items[k + 1..];
  }

  /** The bits that are left once `k` items have been read. */
  ghost predicate Behind(bitBuf: Input, items: seq<Item>, k: nat, sizes: seq<nat>, rest: seq<Field>)
    requires Sendable(items, sizes)
  {
    k <= |items| && bitBuf == InputOf(ItemFields(items[k..], sizes) + rest)
  }

  lemma NextItem(bitBuf: Input, items: seq<Item>, k: nat, sizes: seq<nat>, rest: seq<Field>)
    requires ItemsOk(items) && Sendable(items, sizes) && Fits(sizes) && Fit(rest)
    requires Behind(bitBuf, items, k, sizes, rest) && k < |items|
    ensures var rest' := ItemFields(items[k + 1..], sizes) + rest;
            bitBuf == InputOf(FieldsOf(items[k], sizes) + rest') && Fit(FieldsOf(items[k], sizes) + rest')
  {
    hide Fits, ItemsOk, Fit, FieldsOf, ItemFields, InputOf;
    var rest' := ItemFields(items[k + 1..], sizes) + rest;
    ItemFieldsFront(items, k, sizes);
    ItemFieldsFit(items, k + 1, sizes);
    FieldsFit(items, k, sizes);
    FitConcat(ItemFields(items[k + 1..], sizes), rest);
    FitConcat(FieldsOf(items[k], sizes), rest');
    assert FieldsOf(items[k], sizes) + ItemFields(items[k + 1..], sizes) + rest == FieldsOf(items[k], sizes) + rest';
  }

  /** The loop that fills `m_len_codes`. */
  method ReadLengths(bitBuf0: Input, total: nat, look: array<int>, tree: array<int>, lenCodes: array<nat>,
                     ghost sizes: seq<nat>, ghost paths: seq<InflateTable.Path>, ghost items: seq<Item>,
                     ghost rest: seq<Field>)
    returns (ok: bool, bitBuf: Input)
    requires InflateTable.Holds(sizes, |sizes|, |sizes|, look[..], tree[..], paths) && Fits(sizes)
    requires ItemsOk(items) && Sendable(items, sizes) && Fit(rest) && Expand(items) != []
    requires bitBuf0 == InputOf(ItemFields(items, sizes) + rest) && total == |Expand(items)|
    requires lenCodes.Length >= total && lenCodes as object != look && lenCodes as object != tree
    modifies lenCodes
    ensures ok && bitBuf == InputOf(rest) && lenCodes[..total] == Expand(items)
  {
    hide InflateTable.Holds, Fits, Fit, FieldsOf, ItemFields, InputOf, Expand, RunOf, ItemsOk, ItemOk;
    ghost var (lk, tr) := (look[..], tree[..]);
    bitBuf := bitBuf0;
    var counter := 0;
    ghost var k := 0;
    assert items[0..] == items && items[..0] == [];
    NoneExpanded();
    while counter < total
      invariant look[..] == lk && tree[..] == tr
      invariant Behind(bitBuf, items, k, sizes, rest)
      invariant counter == |Expand(items[..k])| <= total && lenCodes[..counter] == Expand(items[..k])
    {
      NotDone(items, k);
      NextItem(bitBuf, items, k, sizes, rest);
      ExpandPrefix(items, k);
      ExpandNext(items, k);
      RunNotEmpty(items, k);
      ghost var before := Expand(items[..k]);
      OkAt(items, k);
      ReadOne(items[k], before);
      ghost var after := ItemFields(items[k + 1..], sizes) + rest;
      var sym, extra, left := ReadItem(bitBuf, look, tree, sizes, paths, items[k], after);
      bitBuf := left;
      k := k + 1;
      if sym < 16 {
        lenCodes[counter] := sym;
        counter := counter + 1;
        continue;
      }
      if sym == 16 && counter == 0 {
        return false, bitBuf;
      }
      var s := extra + if sym == 18 then 11 else 3;
      Fill(lenCodes, counter, s, if sym == 16 then lenCodes[counter - 1] else 0);
      counter := counter + s;
    }
    ok := total == counter;
    ReadAll(items, k);
    assert items[|items|..] == [];
    NoFields(sizes);
    assert [] + rest == rest;
  }

  lemma NoneExpanded()
    ensures Expand([]) == []
  {
  }

  lemma NotDone(items: seq<Item>, k: nat)
    requires k <= |items| && |Expand(items[..k])| < |Expand(items)|
    ensures k < |items|
  {
    assert items[..|items|] == items;
  }

  lemma ReadAll(items: seq<Item>, k: nat)
    requires ItemsOk(items) && k <= |items| && |Expand(items[..k])| == |Expand(items)|
    ensures k == |items| && items[..k] == items
  {
    if k < |items| {
      ExpandPrefix(items, k);
    }
  }

  lemma OkAt(items: seq<Item>, k: nat)
    requires ItemsOk(items) && k < |items|
    ensures items[k].sym < ALPHABET && (items[k].sym == 16 ==> Expand(items[..k]) != [])
  {
    assert ItemOk(items[k], Expand(items[..k]));
  }

  /** What the decoder writes for an item. */
  lemma ReadOne(it: Item, before: seq<nat>)
    ensures it.sym < 16 ==> RunOf(it, before) == [it.sym]
    ensures it.sym == 16 && before != [] ==> RunOf(it, before) == Repeat(before[|before| - 1], 3 + it.extra)
    ensures it.sym == 17 ==> RunOf(it, before) == Repeat(0, 3 + it.extra)
    ensures it.sym == 18 ==> RunOf(it, before) == Repeat(0, 11 + it.extra)
  {
  }

  // ---- The whole header ----

  /** What the header of a block says: how many lengths of each kind, the code for the lengths, the lengths. */
  datatype Header = Header(lit: nat, dist: nat, sizes2: seq<nat>, shown: nat, items: seq<Item>)

  /** The lengths of the code length code, three bits each. */
  function LengthFields(sizes2: seq<nat>, shown: nat): seq<Field>
    requires |sizes2| == ALPHABET && shown <= ALPHABET
  {
    seq(shown, i requires 0 <= i < shown => Field(sizes2[SWIZZLE[i]], 3))
  }

  ghost predicate HeaderOk(h: Header) {
    && 257 <= h.lit <= 286 && 1 <= h.dist <= 30 && 4 <= h.shown <= ALPHABET
    && |h.sizes2| == ALPHABET && (forall i :: 0 <= i < ALPHABET ==> h.sizes2[i] < 8)
    && (forall i :: h.shown <= i < ALPHABET ==> h.sizes2[SWIZZLE[i]] == 0)
    && InflateTable.Accepted(h.sizes2) && ItemsOk(h.items) && Sendable(h.items, h.sizes2)
  }

  function HeaderFields(h: Header): seq<Field>
    requires HeaderOk(h)
  {
    [Field(h.lit - 257, 5), Field(h.dist - 1, 5), Field(h.shown - 4, 4)]
    + LengthFields(h.sizes2, h.shown) + ItemFields(h.items, h.sizes2)
  }

  /** Everything from `n` on is zero. */
  ghost predicate ZeroFrom(sizes: seq<nat>, n: nat) {
    forall i :: n <= i < |sizes| ==> sizes[i] == 0
  }

  /** The header describes these two codes. */
  ghost predicate Describes(h: Header, sizes0: seq<nat>, sizes1: seq<nat>) {
    && h.lit <= |sizes0| && h.dist <= |sizes1| && ZeroFrom(sizes0, h.lit) && ZeroFrom(sizes1, h.dist)
    && Expand(h.items) == sizes0[..h.lit] + sizes1[..h.dist]
  }

  // ---- Leaving out the unused symbols at the end changes no code ----

  lemma {:induction false} TrimFirst(sizes: seq<nat>, n: nat, l: nat)
    requires n <= |sizes| && ZeroFrom(sizes, n)
    ensures First(sizes[..n], l) == First(sizes, l)
  {
    hide Count;
    if l > 1 {
      TrimFirst(sizes, n, l - 1);
      HuffmanTable.CountFront(sizes, n, l - 1);
    }
  }

  lemma TrimCode(sizes: seq<nat>, n: nat, s: nat)
    requires n <= |sizes| && ZeroFrom(sizes, n) && s < n
    ensures Packed(sizes[..n], s) == Packed(sizes, s)
  {
    hide First, Count, Rev;
    TrimFirst(sizes, n, sizes[s]);
    assert sizes[..n][..s] == sizes[..s];
  }

  lemma TrimAccepted(sizes: seq<nat>, n: nat)
    requires n <= |sizes| && ZeroFrom(sizes, n) && InflateTable.Accepted(sizes)
    ensures InflateTable.Accepted(sizes[..n])
  {
    hide First;
    TrimFirst(sizes, n, 16);
  }

  // ---- Writing the header ----

  /** The loops that look for the last symbol in use. */
  method Trim(codeSizes: array<nat>, most: nat, least: nat) returns (n: nat)
    requires 1 <= least <= most <= codeSizes.Length && ZeroFrom(codeSizes[..], most)
    ensures least <= n <= most && ZeroFrom(codeSizes[..], n) && (n > least ==> codeSizes[n - 1] != 0)
  {
    n := most;
    while n > least
      invariant least <= n <= most && ZeroFrom(codeSizes[..], n)
    {
      if codeSizes[n - 1] != 0 {
        break;
      }
      n := n - 1;
    }
  }

  /** The last length that is shown is not zero, beyond the four that always are. */
  ghost predicate LastShown(sizes2: seq<nat>, shown: nat) {
    4 < shown <= ALPHABET <= |sizes2| ==> sizes2[SWIZZLE[shown - 1]] != 0
  }

  /** `num_bit_lengths` */
  method ShownLengths(codeSizes2: array<nat>) returns (shown: nat)
    requires codeSizes2.Length >= ALPHABET
    ensures 4 <= shown <= ALPHABET && forall i :: shown <= i < ALPHABET ==> codeSizes2[SWIZZLE[i]] == 0
    ensures LastShown(codeSizes2[..], shown)
  {
    var last: int := 18;
    while last >= 0
      invariant -1 <= last <= 18 && forall i :: last < i < ALPHABET ==> codeSizes2[SWIZZLE[i]] == 0
    {
      if codeSizes2[SWIZZLE[last]] != 0 {
        break;
      }
      last := last - 1;
    }
    shown := if last + 1 < 4 then 4 else last + 1;
  }

  method SendLengths(w: BitWriter, codeSizes2: array<nat>, shown: nat)
    requires w.Valid() && codeSizes2.Length == ALPHABET && shown <= ALPHABET
    requires forall i :: 0 <= i < ALPHABET ==> codeSizes2[i] < 8
    modifies w
    ensures w.Valid() && w.sent == old(w.sent) + LengthFields(codeSizes2[..], shown) && old(w.output) <= w.output
  {
    assert Pow2(3) == 8;
    hide Pow2, Stream, Width, Bytes, Fit;
    ghost var (sent, sizes2) := (w.sent, codeSizes2[..]);
    for i := 0 to shown
      invariant w.Valid() && old(w.output) <= w.output
      invariant w.sent == sent + LengthFields(sizes2, shown)[..i]
    {
      ghost var fs := LengthFields(sizes2, shown);
      assert fs[..i + 1] == fs[..i] + [Field(sizes2[SWIZZLE[i]], 3)];
      w.PutBits(codeSizes2[SWIZZLE[i]], 3);
    }
    assert LengthFields(sizes2, shown)[..shown] == LengthFields(sizes2, shown);
  }

  lemma {:induction false} UsesPositive(items: seq<Item>, k: nat)
    requires k < |items|
    ensures Uses(items, items[k].sym) > 0
  {
    if k < |items| - 1 {
      UsesPositive(items[..|items| - 1], k);
    }
  }

  /** The code that is built from the counts can send every item. */
  lemma CountedSendable(items: seq<Item>, counts: seq<nat>, sizes2: seq<nat>)
    requires ItemsOk(items) && |counts| == |sizes2| == ALPHABET && HuffmanTable.Suits(counts, sizes2, 7)
    requires forall v :: 0 <= v < ALPHABET ==> counts[v] == Uses(items, v)
    ensures Sendable(items, sizes2)
  {
    hide Uses, Expand;
    forall i | 0 <= i < |items| ensures items[i].sym < |sizes2| && sizes2[items[i].sym] > 0 {
      OkAt(items, i);
      UsesPositive(items, i);
    }
  }

  /** The lengths of both codes, one after the other, packed. */
  method PackTables(codeSizes0: array<nat>, codeSizes1: array<nat>, lit: nat, dist: nat) returns (p: Packer)
    requires lit <= codeSizes0.Length && dist <= codeSizes1.Length
    requires forall i :: 0 <= i < lit ==> codeSizes0[i] < 16
    requires forall i :: 0 <= i < dist ==> codeSizes1[i] < 16
    ensures fresh(p) && fresh(p.packed) && fresh(p.counts) && p.Written() && p.num <= lit + dist && Thrifty(p.items)
    ensures Expand(p.items) == codeSizes0[..lit] + codeSizes1[..dist]
  {
    var sizes := new nat[lit + dist];
    for i := 0 to lit
      invariant sizes[..i] == codeSizes0[..i] && forall k :: 0 <= k < i ==> sizes[k] < 16
    {
      sizes[i] := codeSizes0[i];
    }
    for i := 0 to dist
      invariant sizes[..lit + i] == codeSizes0[..lit] + codeSizes1[..i]
                && forall k :: 0 <= k < lit + i ==> sizes[k] < 16
    {
      sizes[lit + i] := codeSizes1[i];
      assert sizes[..lit + i + 1] == sizes[..lit + i] + [codeSizes1[i]];
    }
    p := PackSizes(sizes, lit + dist);
  }

  /** The code for the packed lengths. */
  method LengthCode(p: Packer) returns (codeSizes2: array<nat>, codes2: array<nat>)
    requires p.Written() && p.num < 65536
    ensures fresh(codeSizes2) && fresh(codes2) && codeSizes2.Length == codes2.Length == ALPHABET
    ensures forall i :: 0 <= i < ALPHABET ==> codeSizes2[i] < 8
    ensures InflateTable.Accepted(codeSizes2[..]) && Fits(codeSizes2[..]) && Sendable(p.items, codeSizes2[..])
    ensures Codes(codes2[..], codeSizes2[..])
  {
    hide ItemsOk, Flat, Uses, Fits, InflateTable.Accepted, HuffmanTable.KeepsShort, Complete, HuffmanTable.Ranked,
         Packed;
    codeSizes2 := new nat[ALPHABET];
    codes2 := new nat[ALPHABET];
    ghost var counts := p.counts[..];
    assert p.counts[..ALPHABET] == counts;
    assert Pow2(7) == 128;
    HuffmanTable.OptimizeHuffmanTable(p.counts, codeSizes2, codes2, ALPHABET, 7, false);
    assert p.counts[..ALPHABET] == counts && codeSizes2[..ALPHABET] == codeSizes2[..];
    InflateTable.AcceptedFits(codeSizes2[..]);
    CountedSendable(p.items, counts, codeSizes2[..]);
  }

  /** The three counts. */
  method SendCounts(w: BitWriter, lit: nat, dist: nat, shown: nat)
    requires w.Valid() && 257 <= lit <= 286 && 1 <= dist <= 30 && 4 <= shown <= ALPHABET
    modifies w
    ensures w.Valid() && old(w.output) <= w.output
    ensures w.sent == old(w.sent) + [Field(lit - 257, 5), Field(dist - 1, 5), Field(shown - 4, 4)]
  {
    assert Pow2(4) == 16 && Pow2(5) == 32;
    hide Stream, Width, Bytes, Fit, Pow2;
    w.PutBits(lit - 257, 5);
    w.PutBits(dist - 1, 5);
    w.PutBits(shown - 4, 4);
  }

  /** Everything after the block type. */
  method SendHeader(w: BitWriter, lit: nat, dist: nat, codeSizes2: array<nat>, codes2: array<nat>, p: Packer)
    returns (ghost h: Header)
    requires w.Valid() && 257 <= lit <= 286 && 1 <= dist <= 30 && p.Written() && Thrifty(p.items)
    requires codeSizes2.Length == codes2.Length == ALPHABET && forall i :: 0 <= i < ALPHABET ==> codeSizes2[i] < 8
    requires InflateTable.Accepted(codeSizes2[..]) && Fits(codeSizes2[..]) && Sendable(p.items, codeSizes2[..])
    requires Codes(codes2[..], codeSizes2[..])
    modifies w
    ensures HeaderOk(h) && h.lit == lit && h.dist == dist && h.items == p.items && h.sizes2 == codeSizes2[..]
    ensures LastShown(h.sizes2, h.shown)
    ensures w.Valid() && w.sent == old(w.sent) + HeaderFields(h) && old(w.output) <= w.output
  {
    hide ItemsOk, Flat, Uses, Fits, InflateTable.Accepted, Packed, Stream, Width, Bytes, Fit, ItemFields, Sendable,
         LengthFields, Pow2, Thrifty, LastShown;
    var shown := ShownLengths(codeSizes2);
    SendCounts(w, lit, dist, shown);
    SendLengths(w, codeSizes2, shown);
    ghost var sizes2 := codeSizes2[..];
    SendItems(w, p.packed, p.num, codes2, codeSizes2, p.items, sizes2);
    h := Header(lit, dist, sizes2, shown, p.items);
  }

  /** Counts, code lengths and codes of one alphabet: a row of `m_huff_count` and its neighbours. */
  class Table {
    const freqs: array<nat>
    const codeSizes: array<nat>
    const codes: array<nat>

    constructor (counts: array<nat>)
      requires counts.Length <= HuffmanTable.MAX_SYMBOLS
      ensures Rows() && freqs == counts && fresh(codeSizes) && fresh(codes)
    {
      freqs := counts;
      codeSizes := new nat[counts.Length](_ => 0);
      codes := new nat[counts.Length](_ => 0);
    }

    ghost predicate Rows() {
      && freqs.Length == codeSizes.Length == codes.Length <= HuffmanTable.MAX_SYMBOLS
      && freqs != codeSizes && freqs != codes && codeSizes != codes
    }

    ghost function Memory(): set<object> {
      {freqs, codeSizes, codes}
    }

    /** The lengths and codes are those of a code for the symbols counted. */
    ghost predicate Coded(tableLen: nat)
      reads freqs, codeSizes, codes
      requires Rows() && tableLen <= freqs.Length
    {
      && HuffmanTable.DynamicTable(freqs[..tableLen], codeSizes[..], MAX_BITS)
      && Codes(codes[..], codeSizes[..tableLen])
    }
  }

  const LITERALS: nat := 288
  const DISTANCES: nat := 32
  const END_OF_BLOCK: nat := 256

  /** The symbols past the last one that DEFLATE defines are never counted. */
  ghost predicate Counted(freqs: seq<nat>, tableLen: nat, most: nat) {
    tableLen <= |freqs| && HuffmanTable.Frequencies16(freqs[..tableLen])
    && forall i :: most <= i < tableLen ==> freqs[i] == 0
  }

  lemma SizesEnd(f: seq<nat>, sizes: seq<nat>, most: nat)
    requires HuffmanTable.DynamicTable(f, sizes, MAX_BITS) && forall i :: most <= i < |f| ==> f[i] == 0
    ensures ZeroFrom(sizes, most) && forall i :: 0 <= i < |sizes| ==> sizes[i] < 16
  {
    hide InflateTable.Accepted, HuffmanTable.KeepsShort, Complete, HuffmanTable.Ranked;
  }

  method OptimizeTable(t: Table, tableLen: nat, most: nat)
    requires t.Rows() && tableLen <= t.freqs.Length && Counted(t.freqs[..], tableLen, most)
    modifies t.codeSizes, t.codes
    ensures t.Coded(tableLen) && ZeroFrom(t.codeSizes[..], most)
    ensures forall i :: 0 <= i < t.codeSizes.Length ==> t.codeSizes[i] < 16
  {
    hide HuffmanTable.Frequencies16, HuffmanTable.DynamicTable, Packed;
    assert t.freqs[..][..tableLen] == t.freqs[..tableLen];
    ghost var f := t.freqs[..tableLen];
    Pow2Values();
    HuffmanTable.OptimizeHuffmanTable(t.freqs, t.codeSizes, t.codes, tableLen, MAX_BITS, false);
    assert t.freqs[..tableLen] == f;
    SizesEnd(f, t.codeSizes[..], most);
  }

  /** `tdefl_start_dynamic_block`: the header it sends describes the codes it leaves in the tables. */
  method StartDynamicBlock(w: BitWriter, t0: Table, t1: Table) returns (ghost h: Header)
    requires w.Valid() && t0.Rows() && t1.Rows() && t0.Memory() !! t1.Memory()
    requires t0.freqs.Length == LITERALS && t1.freqs.Length == DISTANCES
    requires Counted(t0.freqs[..][END_OF_BLOCK := 1], LITERALS, 286) && Counted(t1.freqs[..], DISTANCES, 30)
    modifies w, t0.freqs, t0.codeSizes, t0.codes, t1.codeSizes, t1.codes
    ensures t0.freqs[..] == old(t0.freqs[..])[END_OF_BLOCK := 1]
    ensures t0.Coded(LITERALS) && t1.Coded(DISTANCES)
    ensures HeaderOk(h) && Describes(h, t0.codeSizes[..], t1.codeSizes[..])
    ensures h.lit > 257 ==> t0.codeSizes[h.lit - 1] != 0
    ensures h.dist > 1 ==> t1.codeSizes[h.dist - 1] != 0
    ensures Thrifty(h.items) && LastShown(h.sizes2, h.shown)
    ensures w.Valid() && w.sent == old(w.sent) + [Field(2, 2)] + HeaderFields(h) && old(w.output) <= w.output
  {
    hide Counted, HeaderFields, HeaderOk, Expand, ItemsOk, Codes, Thrifty, LastShown, HuffmanTable.DynamicTable,
         Fits, InflateTable.Accepted, Stream, Width, Bytes, Fit, Sendable, Packed;
    var lit, dist, p := MakeTables(t0, t1);
    var codeSizes2, codes2 := LengthCode(p);
    assert Pow2(2) == 4;
    w.PutBits(2, 2);
    h := SendHeader(w, lit, dist, codeSizes2, codes2, p);
  }

  /** Both codes, how many lengths of each are sent, and the packed lengths. */
  method MakeTables(t0: Table, t1: Table) returns (lit: nat, dist: nat, p: Packer)
    requires t0.Rows() && t1.Rows() && t0.Memory() !! t1.Memory()
    requires t0.freqs.Length == LITERALS && t1.freqs.Length == DISTANCES
    requires Counted(t0.freqs[..][END_OF_BLOCK := 1], LITERALS, 286) && Counted(t1.freqs[..], DISTANCES, 30)
    modifies t0.freqs, t0.codeSizes, t0.codes, t1.codeSizes, t1.codes
    ensures t0.freqs[..] == old(t0.freqs[..])[END_OF_BLOCK := 1]
    ensures t0.Coded(LITERALS) && t1.Coded(DISTANCES)
    ensures 257 <= lit <= 286 && ZeroFrom(t0.codeSizes[..], lit) && (lit > 257 ==> t0.codeSizes[lit - 1] != 0)
    ensures 1 <= dist <= 30 && ZeroFrom(t1.codeSizes[..], dist) && (dist > 1 ==> t1.codeSizes[dist - 1] != 0)
    ensures fresh(p) && fresh(p.packed) && fresh(p.counts) && p.Written() && p.num <= lit + dist && Thrifty(p.items)
    ensures Expand(p.items) == t0.codeSizes[..][..lit] + t1.codeSizes[..][..dist]
  {
    hide Counted, Expand, ItemsOk, Codes, Thrifty, HuffmanTable.DynamicTable, Packed;
    t0.freqs[END_OF_BLOCK] := 1;
    assert t0.freqs[..] == old(t0.freqs[..])[END_OF_BLOCK := 1];
    OptimizeTable(t0, LITERALS, 286);
    OptimizeTable(t1, DISTANCES, 30);
    lit := Trim(t0.codeSizes, 286, 257);
    dist := Trim(t1.codeSizes, 30, 1);
    p := PackTables(t0.codeSizes, t1.codeSizes, lit, dist);
    assert t0.codeSizes[..][..lit] == t0.codeSizes[..lit] && t1.codeSizes[..][..dist] == t1.codeSizes[..dist];
  }

  // ---- Reading the header ----

  lemma LengthFieldsFit(sizes2: seq<nat>, shown: nat)
    requires |sizes2| == ALPHABET && shown <= ALPHABET && forall i :: 0 <= i < ALPHABET ==> sizes2[i] < 8
    ensures Fit(LengthFields(sizes2, shown))
  {
    assert Pow2(3) == 8;
  }

  lemma HeaderFit(h: Header)
    requires HeaderOk(h)
    ensures Fit(HeaderFields(h))
  {
    hide ItemsOk, Sendable, Fits, InflateTable.Accepted, ItemFields, LengthFields;
    assert Pow2(4) == 16 && Pow2(5) == 32;
    LengthFieldsFit(h.sizes2, h.shown);
    InflateTable.AcceptedFits(h.sizes2);
    assert h.items[0..] == h.items;
    ItemFieldsFit(h.items, 0, h.sizes2);
    FitThree(Field(h.lit - 257, 5), Field(h.dist - 1, 5), Field(h.shown - 4, 4));
    FitConcat([Field(h.lit - 257, 5), Field(h.dist - 1, 5), Field(h.shown - 4, 4)], LengthFields(h.sizes2, h.shown));
    FitConcat([Field(h.lit - 257, 5), Field(h.dist - 1, 5), Field(h.shown - 4, 4)] + LengthFields(h.sizes2, h.shown),
              ItemFields(h.items, h.sizes2));
  }

  lemma FitThree(f: Field, g: Field, e: Field)
    requires f.bits < Pow2(f.len) && g.bits < Pow2(g.len) && e.bits < Pow2(e.len)
    ensures Fit([f, g, e])
  {
  }

  /** `m_code_size_2`: cleared, then filled in the order in which the lengths come. */
  method ReadLengthCode(bitBuf0: Input, shown: nat, codeSize2: array<nat>, ghost sizes2: seq<nat>,
                        ghost rest: seq<Field>)
    returns (bitBuf: Input)
    requires codeSize2.Length == |sizes2| == ALPHABET && shown <= ALPHABET && Fit(LengthFields(sizes2, shown) + rest)
    requires forall i :: shown <= i < ALPHABET ==> sizes2[SWIZZLE[i]] == 0
    requires bitBuf0 == InputOf(LengthFields(sizes2, shown) + rest)
    modifies codeSize2
    ensures codeSize2[..] == sizes2 && bitBuf == InputOf(rest)
  {
    hide InputOf;
    ghost var fs := LengthFields(sizes2, shown) + rest;
    bitBuf := bitBuf0;
    forall i | 0 <= i < ALPHABET { codeSize2[i] := 0; }
    for i := 0 to shown
      invariant bitBuf == InputOf(fs[i..]) && Fit(fs[i..])
      invariant forall k :: 0 <= k < i ==> codeSize2[SWIZZLE[k]] == sizes2[SWIZZLE[k]]
      invariant forall k :: i <= k < ALPHABET ==> codeSize2[SWIZZLE[k]] == 0
    {
      FitRest(fs[i..]);
      assert fs[i..][1..] == fs[i + 1..] && fs[i] == Field(sizes2[SWIZZLE[i]], 3);
      var s;
      s, bitBuf := GetBits(bitBuf, 3, fs[i..]);
      SwizzleDistinct(i);
      codeSize2[SWIZZLE[i]] := s;
    }
    assert fs[shown..] == rest;
    forall v | 0 <= v < ALPHABET ensures codeSize2[v] == sizes2[v] {
      SwizzleCovers(v);
    }
  }

  lemma SwizzleDistinct(i: nat)
    requires i < ALPHABET
    ensures forall k :: 0 <= k < ALPHABET && k != i ==> SWIZZLE[k] != SWIZZLE[i]
  {
  }

  lemma SwizzleCovers(v: nat)
    requires v < ALPHABET
    ensures exists k :: 0 <= k < ALPHABET && SWIZZLE[k] == v
  {
    var order := [3, 17, 15, 13, 11, 9, 7, 5, 4, 6, 8, 10, 12, 14, 16, 18, 0, 1, 2];
    assert SWIZZLE[order[v]] == v;
  }

  /** The counts at the front of the header. */
  method ReadCounts(bitBuf0: Input, ghost h: Header, ghost rest: seq<Field>)
    returns (lit: nat, dist: nat, shown: nat, bitBuf: Input)
    requires HeaderOk(h) && Fit(rest) && bitBuf0 == InputOf(HeaderFields(h) + rest)
    ensures lit == h.lit && dist == h.dist && shown == h.shown
    ensures var after := LengthFields(h.sizes2, h.shown) + (ItemFields(h.items, h.sizes2) + rest);
            Fit(after) && bitBuf == InputOf(after)
  {
    hide InputOf, ItemFields, LengthFields, Sendable, ItemsOk, InflateTable.Accepted, Fit;
    HeaderFit(h);
    FitConcat(HeaderFields(h), rest);
    ghost var after := LengthFields(h.sizes2, h.shown) + (ItemFields(h.items, h.sizes2) + rest);
    ghost var f1 := [Field(h.shown - 4, 4)] + after;
    ghost var f2 := [Field(h.dist - 1, 5)] + f1;
    assert HeaderFields(h) + rest == [Field(h.lit - 257, 5)] + f2;
    assert ([Field(h.lit - 257, 5)] + f2)[1..] == f2 && f2[1..] == f1 && f1[1..] == after;
    FitRest([Field(h.lit - 257, 5)] + f2);
    FitRest(f2);
    FitRest(f1);
    lit, bitBuf := GetBits(bitBuf0, 5, [Field(h.lit - 257, 5)] + f2);
    lit := lit + 257;
    dist, bitBuf := GetBits(bitBuf, 5, f2);
    dist := dist + 1;
    shown, bitBuf := GetBits(bitBuf, 4, f1);
    shown := shown + 4;
  }

  /** The lengths of both alphabets, as `tinfl_decompress` has them in `m_len_codes`. */
  method ReadAllLengths(bitBuf0: Input, ghost h: Header, ghost rest: seq<Field>)
    returns (ok: bool, bitBuf: Input, lit: nat, dist: nat, lenCodes: array<nat>)
    requires HeaderOk(h) && Fit(rest) && bitBuf0 == InputOf(HeaderFields(h) + rest)
    requires |Expand(h.items)| == h.lit + h.dist
    ensures ok && lit == h.lit && dist == h.dist && bitBuf == InputOf(rest)
    ensures fresh(lenCodes) && lenCodes.Length >= lit + dist && lenCodes[..lit + dist] == Expand(h.items)
  {
    hide InputOf, ItemFields, LengthFields, Fit, Expand, ItemsOk, Sendable, HeaderFields, InflateTable.Holds;
    var shown;
    lit, dist, shown, bitBuf := ReadCounts(bitBuf0, h, rest);
    lenCodes := new nat[LITERALS + DISTANCES + 137](_ => 0);
    var codeSize2 := new nat[ALPHABET];
    bitBuf := ReadLengthCode(bitBuf, shown, codeSize2, h.sizes2, ItemFields(h.items, h.sizes2) + rest);
    var look, tree := new int[InflateTable.FAST_SIZE], new int[2 * ALPHABET];
    assert codeSize2[..ALPHABET] == h.sizes2;
    ghost var paths;
    ok, paths := InflateTable.BuildTable(codeSize2, ALPHABET, look, tree);
    InflateTable.AcceptedFits(h.sizes2);
    ok, bitBuf := ReadLengths(bitBuf, lit + dist, look, tree, lenCodes, h.sizes2, paths, h.items, rest);
  }

  /** The codes of a dynamic block, from its header to its decoding tables. `sizes0` and `sizes1` are the
      code lengths of the compressor. */
  method ReadDynamicHeader(bitBuf0: Input, look0: array<int>, tree0: array<int>, look1: array<int>, tree1: array<int>,
                           ghost h: Header, ghost rest: seq<Field>, ghost sizes0: seq<nat>, ghost sizes1: seq<nat>)
    returns (ok: bool, bitBuf: Input, ghost paths0: seq<InflateTable.Path>, ghost paths1: seq<InflateTable.Path>)
    requires HeaderOk(h) && Fit(rest) && bitBuf0 == InputOf(HeaderFields(h) + rest)
    requires Describes(h, sizes0, sizes1) && |sizes0| >= LITERALS && |sizes1| >= DISTANCES
    requires InflateTable.Accepted(sizes0) && InflateTable.Accepted(sizes1)
    requires look0.Length == look1.Length == InflateTable.FAST_SIZE && tree0.Length == 2 * LITERALS
             && tree1.Length == 2 * DISTANCES
    requires look0 != tree0 && look0 != look1 && look0 != tree1 && tree0 != look1 && tree0 != tree1 && look1 != tree1
    modifies look0, tree0, look1, tree1
    ensures ok && bitBuf == InputOf(rest)
    ensures InflateTable.Holds(sizes0[..h.lit], h.lit, h.lit, look0[..], tree0[..], paths0)
    ensures InflateTable.Holds(sizes1[..h.dist], h.dist, h.dist, look1[..], tree1[..], paths1)
  {
    hide InputOf, Fit, Expand, ItemsOk, Sendable, HeaderFields, InflateTable.Holds, InflateTable.Accepted;
    var lit, dist, lenCodes;
    ok, bitBuf, lit, dist, lenCodes := ReadAllLengths(bitBuf0, h, rest);
    var codeSize0, codeSize1 := new nat[LITERALS], new nat[DISTANCES];
    Copy(lenCodes, 0, codeSize0, lit);
    Copy(lenCodes, lit, codeSize1, dist);
    assert lenCodes[0..lit] == lenCodes[..lit + dist][..lit] == sizes0[..lit];
    assert lenCodes[lit..lit + dist] == lenCodes[..lit + dist][lit..] == sizes1[..dist];
    TrimAccepted(sizes0, lit);
    TrimAccepted(sizes1, dist);
    AcceptedBounded(sizes0[..lit]);
    AcceptedBounded(sizes1[..dist]);
    ok, paths1 := InflateTable.BuildTable(codeSize1, dist, look1, tree1);
    ghost var (l1, t1) := (look1[..], tree1[..]);
    assert codeSize0[..lit] == sizes0[..lit];
    ok, paths0 := InflateTable.BuildTable(codeSize0, lit, look0, tree0);
    assert look1[..] == l1 && tree1[..] == t1;
  }

  lemma AcceptedBounded(sizes: seq<nat>)
    requires InflateTable.Accepted(sizes)
    ensures Bounded(sizes)
  {
    hide Complete;
  }

  method Copy(from: array<nat>, start: nat, to: array<nat>, n: nat)
    requires from != to && start + n <= from.Length && n <= to.Length
    modifies to
    ensures to[..n] == from[start..start + n]
  {
    for i := 0 to n
      invariant to[..i] == from[start..start + i]
    {
      to[i] := from[start + i];
    }
  }

  /** The code that the compressor emits for a symbol is the one that the decoder's tables hold. */
  lemma EmittedCode(codes: seq<nat>, sizes: seq<nat>, n: nat, s: nat)
    requires Codes(codes, sizes) && n <= |sizes| && ZeroFrom(sizes, n) && s < |sizes| && sizes[s] > 0
    ensures s < n && sizes[..n][s] == sizes[s] && codes[s] == Packed(sizes[..n], s)
  {
    hide Packed;
    TrimCode(sizes, n, s);
  }
}
