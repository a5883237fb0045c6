/** What the LZ stage writes down: literals and matches, and what copying them out gives. */
module LzRecords {

  const MIN_MATCH: nat := 3
  const MAX_MATCH: nat := 258
  const DICT_SIZE: nat := 32768

  datatype Record = Literal(byte: nat) | Match(len: nat, dist: nat)

  /** LZ77 copying: `len` bytes, one at a time, from `dist` back. */
  function Copy(out: seq<nat>, len: nat, dist: nat): (r: seq<nat>)
    requires 1 <= dist <= |out|
    ensures |r| == |out| + len
  {
    if len == 0 then out
    else
      var before := Copy(out, len - 1, dist);
      before + [before[|before| - dist]]
  }

  /** What record `r` appends. */
  function Apply(out: seq<nat>, r: Record): seq<nat> {
    match r
    case Literal(b) => out + [b]
    case Match(len, dist) => if 1 <= dist <= |out| then Copy(out, len, dist) else out
  }

  function Expand(rs: seq<Record>): seq<nat> {
    if rs == [] then [] else Apply(Expand(rs[..|rs| - 1]), rs[|rs| - 1])
  }

  ghost predicate RecordOk(r: Record) {
    match r
    case Literal(b) => b < 256
    case Match(len, dist) => MIN_MATCH <= len <= MAX_MATCH && 1 <= dist <= DICT_SIZE
  }

  /** Every record fits its encoding, and no match reaches back past the start. */
  ghost predicate RecordsOk(rs: seq<Record>) {
    forall i :: 0 <= i < |rs| ==> RecordOk(rs[i]) && (rs[i].Match? ==> rs[i].dist <= |Expand(rs[..i])|)
  }

  lemma AppendRecord(rs: seq<Record>, r: Record)
    requires RecordsOk(rs) && RecordOk(r) && (r.Match? ==> r.dist <= |Expand(rs)|)
    ensures RecordsOk(rs + [r]) && Expand(rs + [r]) == Apply(Expand(rs), r)
  {
    hide Expand, Apply, RecordOk;
    var more := rs + [r];
    assert more[..|rs|] == rs;
    assert Expand(more) == Apply(Expand(rs), r) by { ExpandLast(more); }
    forall i | 0 <= i < |more| ensures RecordOk(more[i]) && (more[i].Match? ==> more[i].dist <= |Expand(more[..i])|) {
      if i < |rs| {
        assert more[..i] == rs[..i];
      }
    }
  }

  lemma ExpandLast(rs: seq<Record>)
    requires rs != []
    ensures Expand(rs) == Apply(Expand(rs[..|rs| - 1]), rs[|rs| - 1])
  {
  }

  /** The bytes from `p` on repeat those `dist` before. */
  ghost predicate TrueMatch(input: seq<nat>, p: nat, dist: nat, len: nat) {
    1 <= dist <= p && p + len <= |input| && forall i :: p <= i < p + len ==> input[i] == input[i - dist]
  }

  /** Copying a true match reproduces the input. */
  lemma {:induction false} CopyMatch(input: seq<nat>, p: nat, dist: nat, len: nat)
    requires TrueMatch(input, p, dist, len)
    ensures Copy(input[..p], len, dist) == input[..p + len]
  {
    if len > 0 {
      CopyMatch(input, p, dist, len - 1);
      assert input[..p + len] == input[..p + len - 1] + [input[p + len - 1]];
    }
  }

  lemma TrueMatchLater(input: seq<nat>, more: seq<nat>, p: nat, dist: nat, len: nat)
    requires TrueMatch(input, p, dist, len)
    ensures TrueMatch(input + more, p, dist, len)
  {
  }
}
