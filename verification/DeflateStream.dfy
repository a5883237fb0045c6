/** A DEFLATE stream: blocks one after the other, the last of them marked final, and the decompressor's loop over
    them. */
module DeflateStream {
  import opened Bits
  import opened BitStream
  import opened LzRecords
  import opened DeflateBlock
  import opened StoredBlock
  import DynamicHeader

  datatype Block = Block(final: bool, form: Form, rs: seq<Record>)

  /** All records of the blocks. */
  function RecordsOf(blocks: seq<Block>): seq<Record> {
    if blocks == [] then [] else RecordsOf(blocks[..|blocks| - 1]) + blocks[|blocks| - 1].rs
  }

  /** Every block stands for its records after those of the blocks before. */
  ghost predicate AllFaithful(blocks: seq<Block>) {
    forall i :: 0 <= i < |blocks| ==> Faithful(blocks[i].form, RecordsOf(blocks[..i]), blocks[i].rs)
  }

  ghost predicate LastIsFinal(blocks: seq<Block>) {
    blocks != [] && forall i :: 0 <= i < |blocks| ==> (blocks[i].final <==> i == |blocks| - 1)
  }

  function FinalField(final: bool): Field {
    Field(if final then 1 else 0, 1)
  }

  /** A block that begins `at` bits into the stream. */
  ghost function BlockFields(b: Block, at: nat): seq<Field>
    requires Sendable(b.form, b.rs)
  {
    [FinalField(b.final)] + FormFields(b.form, b.rs, at + 1)
  }

  /** The fields of all blocks. */
  ghost function AllFields(blocks: seq<Block>): seq<Field>
    requires AllFaithful(blocks)
  {
    if blocks == [] then []
    else
      var (front, b) := (blocks[..|blocks| - 1], blocks[|blocks| - 1]);
      FaithfulFront(blocks);
      AllFields(front) + BlockFields(b, Width(AllFields(front)))
  }

  lemma FaithfulFront(blocks: seq<Block>)
    requires AllFaithful(blocks) && blocks != []
    ensures AllFaithful(blocks[..|blocks| - 1]) && Sendable(blocks[|blocks| - 1].form, blocks[|blocks| - 1].rs)
  {
    hide Sendable, RecordsOf;
    var front := blocks[..|blocks| - 1];
    forall i | 0 <= i < |front| ensures Faithful(front[i].form, RecordsOf(front[..i]), front[i].rs) {
      assert front[..i] == blocks[..i] && front[i] == blocks[i];
    }
  }

  lemma {:induction false} FaithfulTo(blocks: seq<Block>, k: nat)
    requires AllFaithful(blocks) && k <= |blocks|
    ensures AllFaithful(blocks[..k])
  {
    hide Sendable, RecordsOf, Faithful;
    forall i | 0 <= i < k ensures Faithful(blocks[..k][i].form, RecordsOf(blocks[..k][..i]), blocks[..k][i].rs) {
      assert blocks[..k][..i] == blocks[..i] && blocks[..k][i] == blocks[i];
    }
  }

  lemma FaithfulAt(blocks: seq<Block>, k: nat)
    requires AllFaithful(blocks) && k < |blocks|
    ensures Faithful(blocks[k].form, RecordsOf(blocks[..k]), blocks[k].rs) && Sendable(blocks[k].form, blocks[k].rs)
  {
    hide Sendable;
  }

  lemma FaithfulSends(form: Form, prior: seq<Record>, rs: seq<Record>)
    requires Faithful(form, prior, rs)
    ensures Sendable(form, rs)
  {
    hide Sendable;
  }

  lemma NoBlocks()
    ensures AllFaithful([]) && AllFields([]) == [] && RecordsOf([]) == []
  {
  }

  /** One block more. */
  lemma AddBlock(blocks: seq<Block>, b: Block)
    requires AllFaithful(blocks) && Faithful(b.form, RecordsOf(blocks), b.rs)
    ensures AllFaithful(blocks + [b]) && RecordsOf(blocks + [b]) == RecordsOf(blocks) + b.rs
    ensures AllFields(blocks + [b]) == AllFields(blocks) + BlockFields(b, Width(AllFields(blocks)))
  {
    hide Faithful, BlockFields, Width;
    var more := blocks + [b];
    assert more[..|blocks|] == blocks;
    forall i | 0 <= i < |more| ensures Faithful(more[i].form, RecordsOf(more[..i]), more[i].rs) {
      if i < |blocks| {
        assert more[..i] == blocks[..i] && more[i] == blocks[i];
      }
    }
  }

  // ---- Reading ----

  /** The fields from block `k` on. */
  ghost function FieldsFrom(blocks: seq<Block>, k: nat, rest: seq<Field>): seq<Field>
    requires AllFaithful(blocks) && k <= |blocks|
    decreases |blocks| - k
  {
    if k == |blocks| then rest
    else
      FaithfulTo(blocks, k);
      BlockFields(blocks[k], Width(AllFields(blocks[..k]))) + FieldsFrom(blocks, k + 1, rest)
  }

  /** What is read of the stream is its front, and what follows. */
  lemma {:induction false} FieldsSplit(blocks: seq<Block>, k: nat, rest: seq<Field>)
    requires AllFaithful(blocks) && k <= |blocks|
    ensures AllFaithful(blocks[..k]) && AllFields(blocks) + rest == AllFields(blocks[..k]) + FieldsFrom(blocks, k, rest)
    decreases |blocks| - k
  {
    hide Faithful, BlockFields, Width, AllFaithful;
    FaithfulTo(blocks, k);
    if k < |blocks| {
      FieldsSplit(blocks, k + 1, rest);
      FaithfulTo(blocks, k + 1);
      assert blocks[..k + 1][..k] == blocks[..k] && blocks[..k + 1][k] == blocks[k];
    } else {
      assert blocks[..k] == blocks;
    }
  }

  lemma {:induction false} FromFit(blocks: seq<Block>, k: nat, rest: seq<Field>)
    requires AllFaithful(blocks) && k <= |blocks| && Fit(rest)
    ensures Fit(FieldsFrom(blocks, k, rest))
    decreases |blocks| - k
  {
    hide Fit, Width, FormFields, AllFields, RecordsOf;
    if k < |blocks| {
      FromFit(blocks, k + 1, rest);
      FaithfulTo(blocks, k);
      assert Faithful(blocks[k].form, RecordsOf(blocks[..k]), blocks[k].rs);
      BlockFit(blocks[k], Width(AllFields(blocks[..k])), FieldsFrom(blocks, k + 1, rest));
    }
  }

  lemma BlockFit(b: Block, at: nat, rest: seq<Field>)
    requires Sendable(b.form, b.rs) && Fit(rest)
    ensures Fit(FormFields(b.form, b.rs, at + 1) + rest) && Fit(BlockFields(b, at) + rest)
    ensures BlockFields(b, at) + rest == [FinalField(b.final)] + (FormFields(b.form, b.rs, at + 1) + rest)
  {
    hide FormFields, AfterType, Sendable, Fit;
    FormSplits(b.form, b.rs, at + 1, rest);
    var after := AfterType(b.form, b.rs, at + 1, rest);
    FitsOne(Kind(b.form), 2);
    DynamicHeader.FitConcat([Field(Kind(b.form), 2)], after);
    FitsOne(if b.final then 1 else 0, 1);
    var fields := FormFields(b.form, b.rs, at + 1);
    assert BlockFields(b, at) + rest == [FinalField(b.final)] + (fields + rest);
    DynamicHeader.FitConcat([FinalField(b.final)], fields + rest);
  }

  lemma FitsOne(v: nat, n: nat)
    requires v <= n <= 2 && n > 0
    ensures Fit([Field(v, n)])
  {
    assert Pow2(1) == 2 && Pow2(2) == 4;
  }

  /** Everything from block `k` on begins where the blocks before end. */
  ghost predicate Reading(bitBuf: Input, blocks: seq<Block>, k: nat, rest: seq<Field>)
    requires AllFaithful(blocks)
  {
    && k <= |blocks| && bitBuf == InputOf(FieldsFrom(blocks, k, rest))
    && AllFaithful(blocks[..k]) && (Width(AllFields(blocks[..k])) + bitBuf.count) % 8 == 0
  }

  /** Block `k` is next. */
  lemma NextBlock(bitBuf: Input, blocks: seq<Block>, k: nat, rest: seq<Field>)
    requires AllFaithful(blocks) && Fit(rest) && k < |blocks| && Reading(bitBuf, blocks, k, rest)
    ensures Faithful(blocks[k].form, RecordsOf(blocks[..k]), blocks[k].rs) && AllFaithful(blocks[..k + 1])
    ensures RecordsOf(blocks[..k + 1]) == RecordsOf(blocks[..k]) + blocks[k].rs
    ensures var (at, after) := (Width(AllFields(blocks[..k])), FieldsFrom(blocks, k + 1, rest));
            && Fit(after) && bitBuf == InputOf(BlockFields(blocks[k], at) + after)
            && Reading(InputOf(after), blocks, k + 1, rest)
  {
    hide Fit, Faithful, Sendable, BlockFields, Stream, Width;
    FaithfulAt(blocks, k);
    FaithfulTo(blocks, k + 1);
    FromFit(blocks, k + 1, rest);
    assert blocks[..k + 1][..k] == blocks[..k] && blocks[..k + 1][k] == blocks[k];
    var (at, after) := (Width(AllFields(blocks[..k])), FieldsFrom(blocks, k + 1, rest));
    StreamConcat(BlockFields(blocks[k], at), after);
    StreamConcat(AllFields(blocks[..k]), BlockFields(blocks[k], at));
  }

  /** A block from its first bit on. */
  method InflateOne(bitBuf: Input, out: array<nat>, pos0: nat, ghost b: Block, ghost at: nat, ghost prior: seq<Record>,
                    ghost rest: seq<Field>)
    returns (ok: bool, pos: nat, left: Input, final: bool)
    requires Faithful(b.form, prior, b.rs) && Fit(rest) && bitBuf == InputOf(BlockFields(b, at) + rest)
    requires (at + bitBuf.count) % 8 == 0
    requires pos0 <= out.Length && Follows(prior, b.rs, out[..pos0], 0, out.Length)
    modifies out
    ensures ok && final == b.final && left == InputOf(rest) && pos <= out.Length && out[..pos] == Expand(prior + b.rs)
  {
    hide InputOf, Fit, Follows, Sendable, FormFields;
    BlockFit(b, at, rest);
    ghost var after := FormFields(b.form, b.rs, at + 1) + rest;
    ghost var fs := [FinalField(b.final)] + after;
    assert fs[1..] == after;
    CountFront(fs);
    var bit;
    bit, left := DynamicHeader.GetBits(bitBuf, 1, fs);
    final := bit == 1;
    ok, pos, left := InflateForm(left, out, pos0, b.form, at + 1, prior, b.rs, rest);
  }

  /** `tinfl_decompress`: block after block up to the final one. */
  method Inflate(bitBuf: Input, out: array<nat>, ghost blocks: seq<Block>, ghost rest: seq<Field>)
    returns (ok: bool, pos: nat, left: Input)
    requires AllFaithful(blocks) && LastIsFinal(blocks) && Fit(rest)
    requires bitBuf == InputOf(AllFields(blocks) + rest) && bitBuf.count % 8 == 0
    requires RecordsOk(RecordsOf(blocks)) && |Expand(RecordsOf(blocks))| <= out.Length
    modifies out
    ensures ok && pos <= out.Length && out[..pos] == Expand(RecordsOf(blocks)) && left == InputOf(rest)
  {
    hide Fit, AllFaithful, Faithful, Expand, InputOf, BlockFields, RecordsOk, Follows, Reading, RecordsOf;
    StartReading(bitBuf, blocks, rest);
    var final := false;
    ok, pos, left := true, 0, bitBuf;
    ghost var k := 0;
    while !final
      invariant ok && k <= |blocks| && Reading(left, blocks, k, rest)
      invariant pos <= out.Length && out[..pos] == Expand(RecordsOf(blocks[..k]))
      invariant final <==> k == |blocks|
      decreases |blocks| - k
    {
      NextBlock(left, blocks, k, rest);
      AtBoundary(left, blocks, k, rest);
      ghost var at := Width(AllFields(blocks[..k]));
      RoomFor(blocks, k, out[..pos], out.Length);
      ghost var (prior, after) := (RecordsOf(blocks[..k]), FieldsFrom(blocks, k + 1, rest));
      ok, pos, left, final := InflateOne(left, out, pos, blocks[k], at, prior, after);
      k := k + 1;
    }
    assert blocks[..k] == blocks;
    NothingLeft(left, blocks, rest);
  }

  lemma AtBoundary(bitBuf: Input, blocks: seq<Block>, k: nat, rest: seq<Field>)
    requires AllFaithful(blocks) && Reading(bitBuf, blocks, k, rest)
    ensures k <= |blocks| && AllFaithful(blocks[..k]) && (Width(AllFields(blocks[..k])) + bitBuf.count) % 8 == 0
  {
    hide AllFaithful, InputOf, Width, AllFields, FieldsFrom;
  }

  lemma StartReading(bitBuf: Input, blocks: seq<Block>, rest: seq<Field>)
    requires AllFaithful(blocks) && bitBuf == InputOf(AllFields(blocks) + rest) && bitBuf.count % 8 == 0
    ensures Reading(bitBuf, blocks, 0, rest) && Expand(RecordsOf(blocks[..0])) == []
  {
    hide Stream, Faithful, BlockFields;
    FieldsSplit(blocks, 0, rest);
    assert AllFields(blocks[..0]) == [] && Width([]) == 0;
    assert [] + FieldsFrom(blocks, 0, rest) == FieldsFrom(blocks, 0, rest);
  }

  lemma NothingLeft(bitBuf: Input, blocks: seq<Block>, rest: seq<Field>)
    requires AllFaithful(blocks) && Reading(bitBuf, blocks, |blocks|, rest)
    ensures bitBuf == InputOf(rest)
  {
    hide AllFaithful;
  }

  /** The records of block `k` fit where the others end. */
  lemma RoomFor(blocks: seq<Block>, k: nat, out: seq<nat>, room: nat)
    requires k < |blocks| && RecordsOk(RecordsOf(blocks)) && |Expand(RecordsOf(blocks))| <= room
    requires RecordsOf(blocks[..k + 1]) == RecordsOf(blocks[..k]) + blocks[k].rs
             && out == Expand(RecordsOf(blocks[..k]))
    ensures Follows(RecordsOf(blocks[..k]), blocks[k].rs, out, 0, room)
  {
    hide Expand;
    var (all, some, prior, rs) := (RecordsOf(blocks), RecordsOf(blocks[..k + 1]), RecordsOf(blocks[..k]), blocks[k].rs);
    RecordsFront(blocks, k + 1);
    assert prior + rs[..0] == prior;
    ExpandGrows(all, |some|);
    assert all[..|some|] == some;
    forall i | 0 <= i < |some| ensures some[..i] == all[..i] && some[i] == all[i] {
    }
  }

  lemma {:induction false} RecordsFront(blocks: seq<Block>, k: nat)
    requires k <= |blocks|
    ensures RecordsOf(blocks[..k]) <= RecordsOf(blocks)
  {
    if k < |blocks| {
      RecordsFront(blocks[..|blocks| - 1], k);
      assert blocks[..|blocks| - 1][..k] == blocks[..k];
    } else {
      assert blocks[..k] == blocks;
    }
  }
}
