/** Prefix codes as lists of bit strings, and why their lengths satisfy Kraft's inequality: what is proved best among
    all lengths that satisfy it is best among all prefix codes. */
module PrefixCodes {
  import opened Bits
  import opened Optimality
  import MinimumRedundancy

  type Word = seq<bool>

  /** No code word begins with another. */
  ghost predicate NonePrefix(code: seq<Word>) {
    forall i, j :: 0 <= i < |code| && 0 <= j < |code| && i != j ==> !(code[i] <= code[j])
  }

  function Sizes(code: seq<Word>): (ls: seq<nat>)
    ensures |ls| == |code| && forall i :: 0 <= i < |code| ==> ls[i] == |code[i]|
  {
    seq(|code|, i requires 0 <= i < |code| => |code[i]|)
  }

  /** What follows the first bit in the words that begin with `b`. */
  function Under(code: seq<Word>, b: bool): seq<Word> {
    if code == [] then []
    else
      var w := code[|code| - 1];
      Under(code[..|code| - 1], b) + if w != [] && w[0] == b then [w[1..]] else []
  }

  lemma {:induction false} UnderElements(code: seq<Word>, b: bool, u: Word)
    ensures u in Under(code, b) ==> [b] + u in code
  {
    if code != [] {
      var w := code[|code| - 1];
      UnderElements(code[..|code| - 1], b, u);
      if w != [] && w[0] == b && u == w[1..] {
        assert [b] + u == w;
      }
    }
  }

  lemma {:induction false} UnderNonePrefix(code: seq<Word>, b: bool)
    requires NonePrefix(code)
    ensures NonePrefix(Under(code, b))
  {
    if code != [] {
      var (front, w) := (code[..|code| - 1], code[|code| - 1]);
      UnderNonePrefix(front, b);
      if w != [] && w[0] == b {
        var u := Under(front, b);
        assert w == [b] + w[1..];
        forall i | 0 <= i < |u| ensures !(u[i] <= w[1..]) && !(w[1..] <= u[i]) {
          UnderElements(front, b, u[i]);
          var j :| 0 <= j < |front| && front[j] == [b] + u[i];
          assert code[j] == [b] + u[i];
        }
      }
    }
  }

  lemma UnderShorter(code: seq<Word>, b: bool, m: nat)
    requires m > 0 && UpTo(Sizes(code), m)
    ensures UpTo(Sizes(Under(code, b)), m - 1)
  {
    var u := Under(code, b);
    forall i | 0 <= i < |u| ensures |u[i]| <= m - 1 {
      UnderElements(code, b, u[i]);
      var j :| 0 <= j < |code| && code[j] == [b] + u[i];
      assert Sizes(code)[j] == |u[i]| + 1;
    }
  }

  lemma SizesAppend(code: seq<Word>, w: Word)
    ensures Sizes(code + [w]) == Sizes(code) + [|w|]
  {
  }

  lemma KraftAppend(code: seq<Word>, w: Word, m: nat)
    requires |w| <= m
    ensures Kraft(Sizes(code + [w]), m) == Kraft(Sizes(code), m) + Pow2(m - |w|)
  {
    SizesAppend(code, w);
    assert (Sizes(code) + [|w|])[..|code|] == Sizes(code);
  }

  lemma UnderAppend(code: seq<Word>, w: Word, b: bool)
    requires w != []
    ensures Under(code + [w], b) == if w[0] == b then Under(code, b) + [w[1..]] else Under(code, b)
  {
    assert (code + [w])[..|code|] == code && Under(code, b) + [] == Under(code, b);
  }

  /** What the two halves of a code fill, together. */
  function Halves(code: seq<Word>, m: nat): nat {
    Kraft(Sizes(Under(code, false)), m) + Kraft(Sizes(Under(code, true)), m)
  }

  lemma HalvesAppend(code: seq<Word>, w: Word, m: nat)
    requires 1 <= |w| <= m + 1
    ensures Halves(code + [w], m) == Halves(code, m) + Pow2(m + 1 - |w|)
  {
    hide Kraft, Under, Sizes, Pow2;
    KraftAppend(Under(code, w[0]), w[1..], m);
    UnderAppend(code, w, false);
    UnderAppend(code, w, true);
  }

  lemma {:induction false} KraftOfHalves(code: seq<Word>, m: nat)
    requires forall i :: 0 <= i < |code| ==> 1 <= |code[i]| <= m + 1
    ensures Kraft(Sizes(code), m + 1) == Halves(code, m)
  {
    if code != [] {
      var (front, w) := (code[..|code| - 1], code[|code| - 1]);
      KraftOfHalves(front, m);
      hide Kraft, Halves, Sizes, Pow2;
      assert code == front + [w];
      KraftAppend(front, w, m + 1);
      HalvesAppend(front, w, m);
    }
  }

  /** The empty word is the beginning of every word. */
  lemma NotEmpty(code: seq<Word>, i: nat, j: nat)
    requires NonePrefix(code) && i < |code| && j < |code| && i != j
    ensures code[i] != []
  {
    assert !(code[i] <= code[j]);
  }

  /** Kraft's inequality. */
  lemma {:induction false} KraftInequality(code: seq<Word>, m: nat)
    requires NonePrefix(code) && UpTo(Sizes(code), m)
    ensures IsCode(Sizes(code), m)
    decreases m
  {
    if i :| 0 <= i < |code| && code[i] == [] {
      if |code| > 1 {
        NotEmpty(code, i, if i == 0 then 1 else 0);
      }
      assert code == [] + [[]];
      KraftAppend([], [], m);
    } else if code != [] {
      forall i | 0 <= i < |code| ensures 1 <= |code[i]| <= m {
        assert Sizes(code)[i] <= m;
      }
      assert 1 <= |code[0]| <= m;
      forall b: bool ensures IsCode(Sizes(Under(code, b)), m - 1) {
        UnderNonePrefix(code, b);
        UnderShorter(code, b, m);
        KraftInequality(Under(code, b), m - 1);
      }
      hide Under, Kraft;
      KraftOfHalves(code, m - 1);
    }
  }

  /** No prefix code for these frequencies is shorter: the code has minimum redundancy. */
  lemma NoPrefixCodeCheaper(keys: seq<nat>, code: seq<Word>)
    requires Frequencies(keys) && |keys| >= 2 && |code| == |keys| && NonePrefix(code)
    ensures Cost(keys, MinimumRedundancy.Lengths(keys)) <= Cost(keys, Sizes(code))
  {
    hide Cost, Frequencies, NonePrefix, IsCode, MinimumRedundancy.Lengths;
    var p := Longest(Sizes(code));
    KraftInequality(code, Sizes(code)[p]);
    MinimumCost(keys, Sizes(code), Sizes(code)[p]);
  }
}
