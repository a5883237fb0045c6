/** Run-length coding of code lengths, section 3.2.7 of RFC 1951: the loop of `tdefl_start_dynamic_block`
    against the loop of `tinfl_decompress`. */
module CodeLengthCoding {
  import opened Bits
  import Optimality

  /** A symbol of the code length alphabet with the value of its extra bits. */
  datatype Item = Item(sym: nat, extra: nat)

  const ALPHABET: nat := 19

  function ExtraBits(sym: nat): nat {
    if sym == 16 then 2 else if sym == 17 then 3 else if sym == 18 then 7 else 0
  }

  function Repeat(v: nat, n: nat): (s: seq<nat>)
    ensures |s| == n && forall i :: 0 <= i < n ==> s[i] == v
  {
    if n == 0 then [] else Repeat(v, n - 1) + [v]
  }

  /** What one item stands for after `before`. */
  function RunOf(it: Item, before: seq<nat>): seq<nat> {
    if it.sym < 16 then [it.sym]
    else if it.sym == 16 then if before == [] then [] else Repeat(before[|before| - 1], 3 + it.extra)
    else if it.sym == 17 then Repeat(0, 3 + it.extra)
    else Repeat(0, 11 + it.extra)
  }

  /** The code lengths that a list of items stands for. */
  function Expand(items: seq<Item>): seq<nat> {
    if items == [] then []
    else
      var before := Expand(items[..|items| - 1]);
      before + RunOf(items[|items| - 1], before)
  }

  ghost predicate ItemOk(it: Item, before: seq<nat>) {
    && it.sym < ALPHABET && it.extra < Pow2(ExtraBits(it.sym))
    && (it.sym == 16 ==> before != [])
  }

  /** Every repeat count is in the range its extra bits can hold, and there is something to repeat. */
  ghost predicate ItemsOk(items: seq<Item>) {
    forall i :: 0 <= i < |items| ==> ItemOk(items[i], Expand(items[..i]))
  }

  /** The bytes of `packed_code_sizes`: extra values follow their symbols. */
  function Flat(items: seq<Item>): seq<nat> {
    if items == [] then []
    else
      var it := items[|items| - 1];
      Flat(items[..|items| - 1]) + if it.sym < 16 then [it.sym] else [it.sym, it.extra]
  }

  /** How often symbol `v` is sent. */
  function Uses(items: seq<Item>, v: nat): nat {
    if items == [] then 0
    else Uses(items[..|items| - 1], v) + if items[|items| - 1].sym == v then 1 else 0
  }

  lemma AppendItem(items: seq<Item>, it: Item)
    requires ItemsOk(items) && ItemOk(it, Expand(items))
    ensures var more := items + [it];
            && ItemsOk(more) && Expand(more) == Expand(items) + RunOf(it, Expand(items))
            && Flat(more) == Flat(items) + (if it.sym < 16 then [it.sym] else [it.sym, it.extra])
            && forall v :: Uses(more, v) == Uses(items, v) + if it.sym == v then 1 else 0
  {
    var more := items + [it];
    assert more[..|items|] == items;
    forall i | 0 <= i < |more|
      ensures ItemOk(more[i], Expand(more[..i]))
    {
      if i < |items| {
        assert more[..i] == items[..i] && ItemOk(items[i], Expand(items[..i]));
      }
    }
  }

  lemma RepeatMore(v: nat, n: nat)
    requires n > 0
    ensures Repeat(v, n) == [v] + Repeat(v, n - 1)
  {
  }

  /** The sizes `done` are in `items`, but for a run of zeros or of repeats of the last one, `prev`. */
  ghost predicate Pending(items: seq<Item>, zeros: nat, repeats: nat, done: seq<nat>, prev: nat) {
    && (repeats == 0 || zeros == 0)
    && Expand(items) + Repeat(0, zeros) + Repeat(prev, repeats) == done
    && prev == (if done == [] then 255 else done[|done| - 1])
    && (repeats > 0 ==> Expand(items) != [] && Expand(items)[|Expand(items)| - 1] == prev && 0 < prev < 16)
  }

  lemma NoRepeat(v: nat)
    ensures Repeat(v, 0) == []
  {
  }

  lemma ExtraRanges()
    ensures Pow2(2) == 4 && Pow2(3) == 8 && Pow2(7) == 128
  {
    assert Pow2(7) == 16 * Pow2(3);
  }

  lemma PutRepeat(items: seq<Item>, repeats: nat, done: seq<nat>, prev: nat)
    requires ItemsOk(items) && Pending(items, 0, repeats, done, prev) && repeats > 0
    ensures ItemOk(Item(prev, 0), Expand(items))
    ensures Pending(items + [Item(prev, 0)], 0, repeats - 1, done, prev)
  {
    AppendItem(items, Item(prev, 0));
    RepeatMore(prev, repeats);
    assert Expand(items) + ([prev] + Repeat(prev, repeats - 1)) == Expand(items) + [prev] + Repeat(prev, repeats - 1);
    assert Expand(items) + Repeat(0, 0) == Expand(items);
    assert Expand(items) + [prev] + Repeat(0, 0) == Expand(items) + [prev];
  }

  lemma PutRepeatRun(items: seq<Item>, repeats: nat, done: seq<nat>, prev: nat)
    requires ItemsOk(items) && Pending(items, 0, repeats, done, prev) && 3 <= repeats <= 6
    ensures ItemOk(Item(16, repeats - 3), Expand(items))
    ensures Pending(items + [Item(16, repeats - 3)], 0, 0, done, prev)
  {
    hide Expand, Flat, Uses, ItemsOk, Repeat;
    var it := Item(16, repeats - 3);
    assert Pow2(2) == 4;
    NoRepeat(0);
    NoRepeat(prev);
    AppendItem(items, it);
    assert Expand(items + [it]) == Expand(items) + Repeat(prev, repeats) by { assert 3 + it.extra == repeats; }
    assert Expand(items) + [] == Expand(items);
    assert done + [] + [] == done;
  }

  lemma PutZero(items: seq<Item>, zeros: nat, done: seq<nat>, prev: nat)
    requires ItemsOk(items) && Pending(items, zeros, 0, done, prev) && zeros > 0
    ensures ItemOk(Item(0, 0), Expand(items))
    ensures Pending(items + [Item(0, 0)], zeros - 1, 0, done, prev)
  {
    AppendItem(items, Item(0, 0));
    RepeatMore(0, zeros);
    assert Expand(items) + ([0] + Repeat(0, zeros - 1)) == Expand(items) + [0] + Repeat(0, zeros - 1);
  }

  lemma PutZeroRun(items: seq<Item>, zeros: nat, done: seq<nat>, prev: nat)
    requires ItemsOk(items) && Pending(items, zeros, 0, done, prev) && 3 <= zeros <= 138
    ensures var it := if zeros <= 10 then Item(17, zeros - 3) else Item(18, zeros - 11);
            ItemOk(it, Expand(items)) && Pending(items + [it], 0, 0, done, prev)
  {
    hide Expand, Flat, Uses, ItemsOk, Repeat, Pow2;
    ExtraRanges();
    var it := if zeros <= 10 then Item(17, zeros - 3) else Item(18, zeros - 11);
    NoRepeat(0);
    NoRepeat(prev);
    AppendItem(items, it);
    assert Expand(items + [it]) == Expand(items) + Repeat(0, zeros) by {
      assert (if zeros <= 10 then 3 else 11) + it.extra == zeros;
    }
    assert done + [] + [] == done;
    assert Expand(items) + Repeat(0, zeros) + [] == Expand(items) + Repeat(0, zeros);
  }

  lemma MoreZeros(items: seq<Item>, zeros: nat, done: seq<nat>, prev: nat)
    requires Pending(items, zeros, 0, done, prev)
    ensures Pending(items, zeros + 1, 0, done + [0], 0)
  {
    assert Expand(items) + (Repeat(0, zeros) + [0]) == Expand(items) + Repeat(0, zeros) + [0];
    assert Expand(items) + Repeat(0, zeros) + Repeat(prev, 0) == Expand(items) + Repeat(0, zeros);
    assert Expand(items) + Repeat(0, zeros + 1) + Repeat(0, 0) == Expand(items) + Repeat(0, zeros + 1);
  }

  lemma MoreRepeats(items: seq<Item>, repeats: nat, done: seq<nat>, prev: nat)
    requires Pending(items, 0, repeats, done, prev) && 0 < prev < 16
    ensures Pending(items, 0, repeats + 1, done + [prev], prev)
  {
    assert Expand(items) + Repeat(0, 0) == Expand(items);
    assert Expand(items) + (Repeat(prev, repeats) + [prev]) == Expand(items) + Repeat(prev, repeats) + [prev];
    if repeats == 0 {
      assert done == Expand(items) + Repeat(prev, 0) == Expand(items);
    }
  }

  lemma PutSize(items: seq<Item>, done: seq<nat>, prev: nat, size: nat)
    requires ItemsOk(items) && Pending(items, 0, 0, done, prev) && 0 < size < 16
    ensures ItemOk(Item(size, 0), Expand(items))
    ensures Pending(items + [Item(size, 0)], 0, 0, done + [size], size)
  {
    AppendItem(items, Item(size, 0));
    assert Expand(items) + Repeat(0, 0) + Repeat(prev, 0) == Expand(items);
    assert done + [size] + Repeat(0, 0) + Repeat(size, 0) == done + [size];
  }

  // ---- No run is spelled out that an item could stand for ----

  /** How many equal plain lengths end the list. */
  function Tail(items: seq<Item>): nat {
    if items == [] || items[|items| - 1].sym >= 16 then 0
    else if |items| > 1 && items[|items| - 2] == items[|items| - 1] then 1 + Tail(items[..|items| - 1])
    else 1
  }

  /** Never three plain zeros in a row, nor four other plain lengths that are equal. */
  ghost predicate Thrifty(items: seq<Item>) {
    forall k :: 0 < k <= |items| ==> Tail(items[..k]) <= if items[k - 1].sym == 0 then 2 else 3
  }

  lemma TailAppend(items: seq<Item>, it: Item)
    ensures Tail(items + [it]) == if it.sym >= 16 then 0
                                  else if items != [] && items[|items| - 1] == it then 1 + Tail(items)
                                  else 1
  {
    assert (items + [it])[..|items|] == items;
  }

  lemma ThriftyAppend(items: seq<Item>, it: Item)
    requires Thrifty(items) && Tail(items + [it]) <= if it.sym == 0 then 2 else 3
    ensures Thrifty(items + [it])
  {
    hide Tail;
    var more := items + [it];
    forall k | 0 < k <= |more| ensures Tail(more[..k]) <= if more[k - 1].sym == 0 then 2 else 3 {
      if k <= |items| {
        assert more[..k] == items[..k];
      } else {
        assert more[..k] == more;
      }
    }
  }

  /** The list ends with something else than a plain zero. */
  ghost predicate NoZeroLast(items: seq<Item>) {
    items == [] || items[|items| - 1].sym != 0
  }

  /** The list ends with a single plain `v`, or with an item for a run. */
  ghost predicate OnceLast(items: seq<Item>, v: nat) {
    items != [] && ((items[|items| - 1] == Item(v, 0) && Tail(items) <= 1) || items[|items| - 1].sym == 16)
  }

  /** The items so far, when `prev` was the last length. */
  ghost predicate Lean(items: seq<Item>, prev: nat) {
    Thrifty(items) && if 0 < prev < 16 then OnceLast(items, prev) else NoZeroLast(items)
  }

  /** The locals of `tdefl_start_dynamic_block` that the run-length macros work on. */
  class Packer {
    const packed: array<nat>
    const counts: array<nat>
    var num: nat
    var zeros: nat
    var repeats: nat
    var prev: nat
    ghost var items: seq<Item>

    constructor (capacity: nat)
      ensures Valid([]) && fresh(packed) && fresh(counts) && packed.Length == capacity && Short()
      ensures zeros == 0 && repeats == 0
    {
      packed := new nat[capacity];
      counts := new nat[ALPHABET](_ => 0);
      num, zeros, repeats, prev, items := 0, 0, 0, 255, [];
      new;
      Optimality.ZeroSum(counts[..]);
    }

    /** What has been put into items so far. */
    ghost predicate Written()
      reads this, packed, counts
    {
      && ItemsOk(items)
      && num <= packed.Length && packed[..num] == Flat(items)
      && counts.Length == ALPHABET && counts != packed
      && (forall v :: 0 <= v < ALPHABET ==> counts[v] == Uses(items, v))
      && Optimality.Sum(counts[..]) == |items| <= num
    }

    ghost predicate Valid(done: seq<nat>)
      reads this, packed, counts
    {
      && Written() && Pending(items, zeros, repeats, done, prev)
      && zeros <= 138 && repeats <= 6
      && num + zeros + repeats <= |done| <= packed.Length
    }

    /** No run has been spelled out, nor will the runs still counted be. */
    ghost predicate Short()
      reads this
    {
      && Lean(items, prev) && (prev == 0 || prev >= 16 ==> repeats == 0) && (zeros > 0 ==> prev == 0)
      && (zeros == 0 && (prev == 0 || prev >= 16) ==> items == [] || items[|items| - 1].sym >= 16)
    }

    /** A run that is still counted has been spelled out once. */
    ghost predicate Repeating()
      reads this
    {
      Thrifty(items) && (repeats > 0 ==> 0 < prev < 16 && OnceLast(items, prev))
    }

    method Put(it: Item)
      requires Written() && ItemOk(it, Expand(items)) && num + 2 <= packed.Length + (if it.sym < 16 then 1 else 0)
      modifies this`num, this`items, packed, counts
      ensures Written() && items == old(items) + [it] && num == old(num) + if it.sym < 16 then 1 else 2
    {
      hide ItemsOk, Expand, Optimality.Sum, Flat, Uses, Pow2;
      AppendItem(items, it);
      Optimality.UpdateSum(counts[..], it.sym, counts[it.sym] + 1);
      ghost var (c, flat) := (counts[..], packed[..num]);
      counts[it.sym] := counts[it.sym] + 1;
      assert counts[..] == c[it.sym := c[it.sym] + 1];
      packed[num] := it.sym;
      num := num + 1;
      assert packed[..num] == flat + [it.sym];
      if it.sym >= 16 {
        packed[num] := it.extra;
        num := num + 1;
      }
      items := items + [it];
    }

    /** `TDEFL_RLE_PREV_CODE_SIZE` */
    method FlushRepeats(ghost done: seq<nat>)
      requires Valid(done) && Repeating()
      modifies this`num, this`items, this`repeats, packed, counts
      ensures Valid(done) && repeats == 0 && Thrifty(items)
      ensures if old(repeats) == 0 then items == old(items)
              else items != [] && (items[|items| - 1] == Item(prev, 0) || items[|items| - 1].sym == 16)
      ensures old(repeats) >= 3 ==> items != [] && items[|items| - 1].sym == 16
    {
      hide ItemsOk, ItemOk, Expand, Pending, Flat, Uses, Tail, Thrifty;
      if repeats != 0 {
        NoZeros(items, zeros, repeats, done, prev);
        if repeats < 3 {
          while repeats > 0
            invariant Valid(done) && repeats < 3 && zeros == 0 && prev < 16 && Thrifty(items) && items != []
            invariant items[|items| - 1].sym == 16
                      || (items[|items| - 1] == Item(prev, 0) && Tail(items) + repeats <= 3)
          {
            PutRepeat(items, repeats, done, prev);
            TailAppend(items, Item(prev, 0));
            ThriftyAppend(items, Item(prev, 0));
            Put(Item(prev, 0));
            repeats := repeats - 1;
          }
        } else {
          PutRepeatRun(items, repeats, done, prev);
          TailAppend(items, Item(16, repeats - 3));
          ThriftyAppend(items, Item(16, repeats - 3));
          Put(Item(16, repeats - 3));
          repeats := 0;
        }
      }
    }

    /** `TDEFL_RLE_ZERO_CODE_SIZE` */
    method FlushZeros(ghost done: seq<nat>)
      requires Valid(done) && Short()
      modifies this`num, this`items, this`zeros, packed, counts
      ensures Valid(done) && zeros == 0 && Thrifty(items)
      ensures if old(zeros) == 0 then items == old(items) else items != [] && items[|items| - 1].sym in {0, 17, 18}
      ensures old(zeros) >= 3 ==> items != [] && items[|items| - 1].sym in {17, 18}
    {
      hide ItemsOk, ItemOk, Expand, Pending, Flat, Uses, Tail, Thrifty;
      if zeros != 0 {
        NoRepeats(items, zeros, repeats, done, prev);
        if zeros < 3 {
          while zeros > 0
            invariant Valid(done) && zeros < 3 && repeats == 0 && Thrifty(items)
            invariant NoZeroLast(items) || Tail(items) + zeros <= 2
            invariant zeros == old(zeros) || (items != [] && items[|items| - 1].sym == 0)
          {
            PutZero(items, zeros, done, prev);
            TailAppend(items, Item(0, 0));
            ThriftyAppend(items, Item(0, 0));
            Put(Item(0, 0));
            zeros := zeros - 1;
          }
        } else {
          PutZeroRun(items, zeros, done, prev);
          ghost var run := if zeros <= 10 then Item(17, zeros - 3) else Item(18, zeros - 11);
          TailAppend(items, run);
          ThriftyAppend(items, run);
          if zeros <= 10 {
            Put(Item(17, zeros - 3));
          } else {
            Put(Item(18, zeros - 11));
          }
          zeros := 0;
        }
      }
    }

    /** The body of the packing loop. */
    method Add(size: nat, ghost done: seq<nat>)
      requires Valid(done) && zeros < 138 && repeats < 6 && size < 16 && |done| < packed.Length && Short()
      modifies this, packed, counts
      ensures Valid(done + [size]) && zeros < 138 && repeats < 6 && Short()
    {
      hide ItemsOk, ItemOk, Expand, Pending, Flat, Uses, Tail, Thrifty;
      if size == 0 {
        FlushRepeats(done);
        MoreZeros(items, zeros, done, prev);
        zeros := zeros + 1;
        prev := 0;
        if zeros == 138 {
          FlushZeros(done + [size]);
        }
      } else {
        FlushZeros(done);
        if size != prev {
          NewSize(size, done);
        } else {
          MoreRepeats(items, repeats, done, prev);
          repeats := repeats + 1;
          if repeats == 6 {
            FlushRepeats(done + [size]);
          }
        }
      }
    }

    /** A length that differs from the one before is put as it is. */
    method NewSize(size: nat, ghost done: seq<nat>)
      requires Valid(done) && zeros == 0 && 0 < size < 16 && size != prev && |done| < packed.Length && Repeating()
      requires items == [] || items[|items| - 1] != Item(size, 0)
      modifies this, packed, counts
      ensures Valid(done + [size]) && zeros == repeats == 0 && Short()
    {
      hide ItemsOk, ItemOk, Expand, Pending, Flat, Uses, Tail, Thrifty;
      FlushRepeats(done);
      PutSize(items, done, prev, size);
      TailAppend(items, Item(size, 0));
      ThriftyAppend(items, Item(size, 0));
      Put(Item(size, 0));
      prev := size;
    }
  }

  lemma NoZeros(items: seq<Item>, zeros: nat, repeats: nat, done: seq<nat>, prev: nat)
    requires Pending(items, zeros, repeats, done, prev) && repeats > 0
    ensures zeros == 0 && prev < 16
  {
  }

  lemma NoRepeats(items: seq<Item>, zeros: nat, repeats: nat, done: seq<nat>, prev: nat)
    requires Pending(items, zeros, repeats, done, prev) && zeros > 0
    ensures repeats == 0
  {
  }

  lemma AllWritten(items: seq<Item>, done: seq<nat>, prev: nat)
    requires Pending(items, 0, 0, done, prev)
    ensures Expand(items) == done
  {
    assert Expand(items) + Repeat(0, 0) + Repeat(prev, 0) == Expand(items);
  }

  /** The packing loop: the items stand for exactly the given sizes. */
  method PackSizes(sizes: array<nat>, total: nat) returns (p: Packer)
    requires total <= sizes.Length && forall i :: 0 <= i < total ==> sizes[i] < 16
    ensures fresh(p) && fresh(p.packed) && fresh(p.counts)
    ensures p.Written() && Expand(p.items) == sizes[..total] && p.num <= total && Thrifty(p.items)
  {
    hide ItemsOk, ItemOk, Expand, Pending, Flat, Uses, Tail, Thrifty;
    p := new Packer(total);
    for i := 0 to total
      invariant p.Valid(sizes[..i]) && p.zeros < 138 && p.repeats < 6 && p.packed.Length == total && p.Short()
      invariant fresh(p) && fresh(p.packed) && fresh(p.counts)
    {
      assert sizes[..i + 1] == sizes[..i] + [sizes[i]];
      p.Add(sizes[i], sizes[..i]);
    }
    if p.repeats != 0 {
      NoZeros(p.items, p.zeros, p.repeats, sizes[..total], p.prev);
      p.FlushRepeats(sizes[..total]);
    } else {
      p.FlushZeros(sizes[..total]);
    }
    AllWritten(p.items, sizes[..total], p.prev);
  }
}
