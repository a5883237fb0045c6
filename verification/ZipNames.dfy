/** The order of file names in the sorted directory index: case-folded bytes, then length. */
module ZipNames {

  /** `MZ_TOLOWER` */
  function Fold(c: nat): nat {
    if 65 <= c <= 90 then c + 32 else c
  }

  function Folded(s: seq<nat>): (r: seq<nat>)
    ensures |r| == |s|
  {
    seq(|s|, i requires 0 <= i < |s| => Fold(s[i]))
  }

  /** Names are alike when they differ only in the case of letters A to Z. */
  lemma FoldedAlike(a: seq<nat>, b: seq<nat>)
    ensures Folded(a) == Folded(b) <==>
            |a| == |b|
            && forall i :: 0 <= i < |a| ==>
                 || a[i] == b[i]
                 || (65 <= a[i] <= 90 && b[i] == a[i] + 32)
                 || (65 <= b[i] <= 90 && a[i] == b[i] + 32)
  {
    if Folded(a) == Folded(b) {
      forall i | 0 <= i < |a| ensures Fold(a[i]) == Fold(b[i]) {
        assert Folded(a)[i] == Folded(b)[i];
      }
    }
  }

  /** `a` comes strictly before `b`. */
  predicate Lex(a: seq<nat>, b: seq<nat>) {
    b != [] && (a == [] || a[0] < b[0] || (a[0] == b[0] && Lex(a[1..], b[1..])))
  }

  predicate Leq(a: seq<nat>, b: seq<nat>) {
    !Lex(b, a)
  }

  lemma {:induction false} LexTotal(a: seq<nat>, b: seq<nat>)
    ensures Lex(a, b) || Lex(b, a) || a == b
    ensures !(Lex(a, b) && Lex(b, a))
    ensures a == b ==> !Lex(a, b)
  {
    if a != [] && b != [] {
      LexTotal(a[1..], b[1..]);
      assert a == [a[0]] + a[1..] && b == [b[0]] + b[1..];
    }
  }

  lemma {:induction false} LexTransitive(a: seq<nat>, b: seq<nat>, c: seq<nat>)
    requires Lex(a, b) && Lex(b, c)
    ensures Lex(a, c)
  {
    if a != [] && a[0] == b[0] == c[0] {
      LexTransitive(a[1..], b[1..], c[1..]);
    }
  }

  lemma LeqTransitive(a: seq<nat>, b: seq<nat>, c: seq<nat>)
    requires Leq(a, b) && Leq(b, c)
    ensures Leq(a, c)
  {
    LexTotal(a, b);
    LexTotal(b, c);
    LexTotal(a, c);
    if Lex(c, a) {
      if Lex(a, b) {
        LexTransitive(c, a, b);
      }
    }
  }

  /** Where two names first differ decides; otherwise the shorter comes first. */
  lemma {:induction false} LexAt(a: seq<nat>, b: seq<nat>, k: nat)
    requires k <= |a| && k <= |b| && a[..k] == b[..k]
    ensures k < |a| && k < |b| && a[k] != b[k] ==> (Lex(a, b) <==> a[k] < b[k])
    ensures k == |a| || k == |b| ==> (Lex(a, b) <==> |a| < |b|)
  {
    if k > 0 {
      assert a[0] == a[..k][0] == b[..k][0] == b[0];
      assert a[1..][..k - 1] == a[..k][1..] == b[..k][1..] == b[1..][..k - 1];
      LexAt(a[1..], b[1..], k - 1);
    }
  }

  /** The loop that both comparisons share: how far the names agree. */
  method CommonPrefix(l: seq<nat>, r: seq<nat>) returns (k: nat)
    ensures k <= |l| && k <= |r| && Folded(l)[..k] == Folded(r)[..k]
    ensures k < |l| && k < |r| ==> Fold(l[k]) != Fold(r[k])
  {
    k := 0;
    while k < |l| && k < |r|
      invariant k <= |l| && k <= |r| && Folded(l)[..k] == Folded(r)[..k]
    {
      if Fold(l[k]) != Fold(r[k]) {
        break;
      }
      k := k + 1;
    }
  }

  /** `mz_zip_reader_filename_less` */
  method FilenameLess(l: seq<nat>, r: seq<nat>) returns (less: bool)
    ensures less == Lex(Folded(l), Folded(r))
  {
    var k := CommonPrefix(l, r);
    LexAt(Folded(l), Folded(r), k);
    if k == |l| || k == |r| {
      less := |l| < |r|;
    } else {
      less := Fold(l[k]) < Fold(r[k]);
    }
  }

  /** `mz_zip_filename_compare` */
  method FilenameCompare(l: seq<nat>, r: seq<nat>) returns (comp: int)
    ensures comp == 0 <==> Folded(l) == Folded(r)
    ensures comp < 0 <==> Lex(Folded(l), Folded(r))
  {
    var k := CommonPrefix(l, r);
    LexAt(Folded(l), Folded(r), k);
    if k == |l| || k == |r| {
      comp := |l| - |r|;
      assert comp == 0 ==> Folded(l)[..k] == Folded(l) && Folded(r)[..k] == Folded(r);
    } else {
      comp := Fold(l[k]) - Fold(r[k]);
    }
  }

  /** `mz_zip_string_equal` without case sensitivity, for strings of the same length. */
  method StringEqual(a: seq<nat>, b: seq<nat>) returns (equal: bool)
    requires |a| == |b|
    ensures equal == (Folded(a) == Folded(b))
  {
    for i := 0 to |a|
      invariant Folded(a)[..i] == Folded(b)[..i]
    {
      if Fold(a[i]) != Fold(b[i]) {
        assert Folded(a)[i] != Folded(b)[i];
        return false;
      }
    }
    assert Folded(a)[..|a|] == Folded(a) && Folded(b)[..|a|] == Folded(b);
    return true;
  }
}
