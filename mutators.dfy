/// The text mutators of AutocompleteTextField: splicing a chosen option into
/// the text (`handleSelection`), and the space remover of `handleChange`,
/// which turns "token ," into "token, " right after an option was chosen.
module TextMutators {
  import opened JsText

  /** The text `handleSelection` writes: the text before the slug, the
      option, one space, and the text after the slug. */
  function InsertOption(text: string, matchStart: int, matchLength: int, option: string): string
  {
    Substring(text, 0, matchStart) + option + " " + SubstringFrom(text, matchStart + matchLength)
  }

  /** The caret `handleSelection` moves to: `part1.length + slug.length + 1`. */
  function CaretAfterInsert(text: string, matchStart: int, option: string): int
  {
    |Substring(text, 0, matchStart)| + |option| + 1
  }

  /** Choosing an option replaces the slug by the option and a space, leaves
      the text around the slug untouched, and puts the caret right after the
      inserted space. */
  lemma InsertOptionSplices(text: string, matchStart: int, matchLength: int, option: string)
    requires 0 <= matchStart && 0 <= matchLength && matchStart + matchLength <= |text|
    ensures var r := InsertOption(text, matchStart, matchLength, option);
      var c := CaretAfterInsert(text, matchStart, option);
      && c == matchStart + |option| + 1
      && r == text[..matchStart] + option + " " + text[matchStart + matchLength..]
      && |r| == |text| - matchLength + |option| + 1
      && r[..matchStart] == text[..matchStart]
      && r[matchStart..c - 1] == option
      && r[c - 1] == ' '
      && r[c..] == text[matchStart + matchLength..]
  {
    var r := InsertOption(text, matchStart, matchLength, option);
    var c := matchStart + |option| + 1;
    assert r == text[..matchStart] + option + " " + text[matchStart + matchLength..];
    assert r[..matchStart] == text[..matchStart];
    assert r[matchStart..c - 1] == option;
    assert r[c..] == text[matchStart + matchLength..];
  }

  /** `spaceRemovers.indexOf(c) !== -1`: the list holds the one-character string `c`. */
  predicate IsRemover(removers: seq<string>, c: char)
  {
    [c] in removers
  }

  /** `old[i] !== str[i]`, where reading past the end gives `undefined`. */
  predicate Differs(a: string, b: string, i: nat)
  {
    i >= |a| || i >= |b| || a[i] != b[i]
  }

  /** `i` is the first index below the longer length where the texts differ. */
  ghost predicate IsFirstDifference(a: string, b: string, i: nat)
  {
    && (i < |a| || i < |b|)
    && Differs(a, b, i)
    && forall j :: 0 <= j < i ==> !Differs(a, b, j)
  }

  /** The longer of the two lengths. */
  function MaxLength(a: string, b: string): nat
  {
    if |a| > |b| then |a| else |b|
  }

  /** The first index at or after `i`, below the longer length, where the
      texts differ. */
  function FirstDiffFrom(a: string, b: string, i: nat): Option<nat>
    decreases MaxLength(a, b) - i
  {
    if i >= MaxLength(a, b) then None
    else if Differs(a, b, i) then Some(i)
    else FirstDiffFrom(a, b, i + 1)
  }

  /** The first index where the texts differ, if they differ. */
  function FirstDiff(a: string, b: string): Option<nat>
  {
    FirstDiffFrom(a, b, 0)
  }

  /** The search from `i` finds the first difference at or after `i`, or
      reports that there is none below the longer length. */
  lemma {:induction false} FirstDiffFromFinds(a: string, b: string, i: nat)
    ensures FirstDiffFrom(a, b, i).None? ==> forall j :: i <= j < MaxLength(a, b) ==> !Differs(a, b, j)
    ensures FirstDiffFrom(a, b, i).Some? ==> var k := FirstDiffFrom(a, b, i).value;
      && i <= k < MaxLength(a, b) && Differs(a, b, k)
      && forall j :: i <= j < k ==> !Differs(a, b, j)
    decreases MaxLength(a, b) - i
  {
    if i < MaxLength(a, b) && !Differs(a, b, i) {
      FirstDiffFromFinds(a, b, i + 1);
    }
  }

  /** The first difference is absent exactly when the texts are equal, and
      otherwise it is the index where they first differ. */
  lemma FirstDiffFacts(a: string, b: string)
    ensures FirstDiff(a, b).None? <==> a == b
    ensures FirstDiff(a, b).Some? ==> var i := FirstDiff(a, b).value;
      && IsFirstDifference(a, b, i)
      && i <= |a| && i <= |b| && a[..i] == b[..i]
  {
    FirstDiffFromFinds(a, b, 0);
    if FirstDiff(a, b).None? {
      if |a| != |b| {
        var m := if |a| < |b| then |a| else |b|;
        assert Differs(a, b, m);
      }
      forall j | 0 <= j < |a| ensures a[j] == b[j] {
        assert !Differs(a, b, j);
      }
    } else {
      var i := FirstDiff(a, b).value;
      assert a != b by {
        if |a| == |b| {
          assert a[i] != b[i];
        }
      }
      if i > 0 {
        assert !Differs(a, b, i - 1);
      }
      assert a[..i] == b[..i] by {
        forall j | 0 <= j < i ensures a[j] == b[j] {
          assert !Differs(a, b, j);
        }
      }
    }
  }

  /** A first difference is the first difference. */
  lemma FirstDiffIs(a: string, b: string, i: nat)
    requires IsFirstDifference(a, b, i)
    ensures FirstDiff(a, b) == Some(i)
  {
    FirstDiffFromFinds(a, b, 0);
    if FirstDiff(a, b).Some? {
      var k := FirstDiff(a, b).value;
      assert !(k < i) && !(i < k);
    }
  }

  /** The rewrite condition at the first differing index `i`: a space before
      `i`, a character that is not a remover before that, and a remover at `i`. */
  predicate SwapCandidate(removers: seq<string>, str: string, i: int)
  {
    && 2 <= i < |str|
    && str[i - 1] == ' '
    && !IsRemover(removers, str[i - 2])
    && IsRemover(removers, str[i])
  }

  /** The rewritten text: the character at `i` and the one before it trade places. */
  function SwapSpace(str: string, i: int): string
  {
    Slice(str, 0, i - 1) + Slice(str, i, i + 1) + Slice(str, i - 1, i) + SliceFrom(str, i + 1)
  }

  /** The rewrite, written out on a text long enough for it. */
  lemma SwapSpaceUnfolds(str: string, i: int)
    requires 1 <= i < |str|
    ensures SwapSpace(str, i) == str[..i - 1] + [str[i]] + [str[i - 1]] + str[i + 1..]
  {
    assert str[i - 1..i] == [str[i - 1]] && str[i..i + 1] == [str[i]];
  }

  /** A text is its prefix, the two characters at `i - 1` and `i`, and its suffix. */
  lemma SplitAround(str: string, i: int)
    requires 1 <= i < |str|
    ensures str == str[..i - 1] + [str[i - 1]] + [str[i]] + str[i + 1..]
  {
    var t := str[..i - 1] + [str[i - 1]] + [str[i]] + str[i + 1..];
    forall k | 0 <= k < |str| ensures t[k] == str[k] {
      if k > i {
        assert t[k] == str[i + 1..][k - i - 1];
      }
    }
  }

  /** The rewrite moves the character at `i` one place left and the one
      before it one place right, and changes nothing else. */
  lemma SwapSpaceExchanges(str: string, i: int)
    requires 1 <= i < |str|
    ensures var r := SwapSpace(str, i);
      && |r| == |str|
      && r[i - 1] == str[i] && r[i] == str[i - 1]
      && (forall k :: 0 <= k < |str| && k != i - 1 && k != i ==> r[k] == str[k])
  {
    var r := SwapSpace(str, i);
    SwapSpaceUnfolds(str, i);
    forall k | 0 <= k < |str| && k != i - 1 && k != i ensures r[k] == str[k] {
      if k > i {
        assert r[k] == str[i + 1..][k - i - 1];
      }
    }
  }

  /** The rewrite keeps the characters of the text. */
  lemma SwapSpacePermutes(str: string, i: int)
    requires 1 <= i < |str|
    ensures multiset(SwapSpace(str, i)) == multiset(str)
  {
    var pre, post := str[..i - 1], str[i + 1..];
    SwapSpaceUnfolds(str, i);
    SplitAround(str, i);
    assert multiset(pre + [str[i]] + [str[i - 1]] + post)
      == multiset(pre) + multiset{str[i]} + multiset{str[i - 1]} + multiset(post);
  }
}
