/// The suggestion list of AutocompleteTextField: the decision `updateHelper`
/// takes on a match, the helper's visibility/selection state and its
/// transitions on keys, hover and resize, and the slicing done when the
/// list is rendered.
module Selection {
  import opened JsText
  import opened Props
  import opened Matcher
  import opened MatcherProperties

  const KEY_UP := 38
  const KEY_DOWN := 40
  const KEY_RETURN := 13
  const KEY_ENTER := 14
  const KEY_ESCAPE := 27

  /** The list is worth showing: two or more options, or one whose length
      differs from the typed slug's. */
  predicate ShowsList(m: Match)
  {
    |m.options| > 1 || (|m.options| == 1 && |m.options[0]| != m.matchLength)
  }

  /** What `updateHelper` does with a result of `getMatch`: show the list,
      or hide it, possibly requesting options for the slug first. */
  datatype Decision = Show(m: Match) | Hide(request: Option<string>)

  /** The decision of `updateHelper` (without the list's pixel position).
      `str` is the text in its original case, from which the request's slug is cut. */
  function Decide(found: Option<Match>, requestOnlyIfNoOptions: bool, str: string): Decision
  {
    match found
    case None => Hide(None)
    case Some(m) =>
      if ShowsList(m) then Show(m)
      else if !requestOnlyIfNoOptions || |m.options| == 0 then Hide(Some(Substr(str, m.matchStart, m.matchLength)))
      else Hide(None)
  }

  /** The state `updateHelper`, the keys, hover and resize act on. */
  datatype HelperState = HelperState(
    visible: bool,
    selection: int,
    options: seq<string>,
    matchStart: int,
    matchLength: int)

  /** While the list is visible, the selection names one of its options. */
  predicate SelectionInRange(h: HelperState)
  {
    h.visible ==> 0 <= h.selection < |h.options|
  }

  /** `resetHelper`. */
  function Reset(h: HelperState): HelperState
  {
    h.(visible := false, selection := 0)
  }

  /** `handleResize`: hides the list and keeps the selection. */
  function Resize(h: HelperState): HelperState
  {
    h.(visible := false)
  }

  /** The show branch of `updateHelper` as written: the match's fields are
      spread into the state and the old selection is kept. */
  function ShowAsWritten(h: HelperState, m: Match): HelperState
  {
    h.(visible := true, options := m.options, matchStart := m.matchStart, matchLength := m.matchLength)
  }

  /** The show branch, corrected: the old selection is kept only while it
      still names one of the new options, else the first option is selected. */
  function ShowList(h: HelperState, m: Match): (r: HelperState)
    ensures |m.options| > 0 ==> SelectionInRange(r)
    ensures 0 <= h.selection < |m.options| ==> r == ShowAsWritten(h, m)
  {
    ShowAsWritten(h, m).(selection := if 0 <= h.selection < |m.options| then h.selection else 0)
  }

  /** The state after `updateHelper` has taken decision `d`. */
  function AfterDecision(h: HelperState, d: Decision): HelperState
  {
    match d
    case Show(m) => ShowList(h, m)
    case Hide(_) => Reset(h)
  }

  /** Arrow down while the list is visible. */
  function Down(h: HelperState): HelperState
    requires h.visible && SelectionInRange(h)
  {
    h.(selection := (h.selection + 1) % |h.options|)
  }

  /** Arrow up while the list is visible. */
  function Up(h: HelperState): HelperState
    requires h.visible && SelectionInRange(h)
  {
    h.(selection := (|h.options| + h.selection - 1) % |h.options|)
  }

  /** Mouse over row `idx`. */
  function Hover(h: HelperState, idx: int): HelperState
  {
    h.(selection := idx)
  }

  /** How `handleKeyDown` treats a key. */
  datatype KeyAction = Forward | Escape | MoveUp | MoveDown | Choose

  function ActionOf(visible: bool, keyCode: int): (a: KeyAction)
    ensures !visible ==> a == Forward
    ensures a == Forward <==> !visible || keyCode !in {KEY_ESCAPE, KEY_UP, KEY_DOWN, KEY_ENTER, KEY_RETURN}
  {
    if !visible then Forward
    else if keyCode == KEY_ESCAPE then Escape
    else if keyCode == KEY_UP then MoveUp
    else if keyCode == KEY_DOWN then MoveDown
    else if keyCode == KEY_ENTER || keyCode == KEY_RETURN then Choose
    else Forward
  }

  // ---------------------------------------------------------------------
  // Visibility and requests, in terms of the typed slug.

  /** The list stays hidden after a match exactly when there is nothing to
      complete: no candidate, or the only candidate is the typed slug itself. */
  lemma HiddenExactlyWhenComplete(cfg: Config, str: string, caret: int, provided: seq<string>)
    requires MatchSpec(cfg, str, caret, provided).Some?
    ensures var m := MatchSpec(cfg, str, caret, provided).value;
      var slug := Substring(str, m.matchStart, caret);
      !ShowsList(m) <==> m.options == [] || m.options == [slug]
  {
    MatchFound(cfg, str, caret, provided);
    var m := MatchSpec(cfg, str, caret, provided).value;
    var slug := Substring(str, m.matchStart, caret);
    if |m.options| == 1 {
      var o := m.options[0];
      FilterOptions(provided, slug, cfg.matchAny);
      assert IsInfix(slug, o);
      if |o| == m.matchLength {
        var k :| OccursAt(o, slug, k);
        assert o[k..k + |slug|] == slug;
        assert o == o[k..k + |slug|];
      }
    }
  }

  /** The request rule of `updateHelper`: a request is made exactly for a
      match whose list stays hidden, and with `requestOnlyIfNoOptions` only
      when no candidate matched; it carries the slug cut from the text in its
      original case, which lower-cases to the slug the options were filtered by
      whenever the slug does not start past the caret (it can only when the
      regex accepts the trigger and the caret is inside the trigger). */
  lemma RequestRule(cfg: Config, str: string, caret: int, provided: seq<string>)
    ensures var found := MatchSpec(cfg, ToLower(str), caret, provided);
      var d := Decide(found, cfg.requestOnlyIfNoOptions, str);
      && (d.Show? <==> found.Some? && ShowsList(found.value))
      && (d.Hide? && d.request.Some? <==>
            found.Some? && !ShowsList(found.value) && (!cfg.requestOnlyIfNoOptions || found.value.options == []))
      && (d.Hide? && d.request.Some? && found.value.matchStart <= caret ==>
            && |d.request.value| == found.value.matchLength
            && ToLower(d.request.value) == Substring(ToLower(str), found.value.matchStart, caret))
  {
    var found := MatchSpec(cfg, ToLower(str), caret, provided);
    if found.Some? && found.value.matchStart <= caret {
      RequestCutsSlug(cfg, str, caret, provided);
    }
  }

  /** The request cut from the text in its original case has the slug's
      length and lower-cases to the slug, when the slug does not start
      past the caret. */
  lemma RequestCutsSlug(cfg: Config, str: string, caret: int, provided: seq<string>)
    requires MatchSpec(cfg, ToLower(str), caret, provided).Some?
    requires MatchSpec(cfg, ToLower(str), caret, provided).value.matchStart <= caret
    ensures var m := MatchSpec(cfg, ToLower(str), caret, provided).value;
      var request := Substr(str, m.matchStart, m.matchLength);
      |request| == m.matchLength && ToLower(request) == Substring(ToLower(str), m.matchStart, caret)
  {
    var lower := ToLower(str);
    MatchFound(cfg, lower, caret, provided);
    var ms := MatchSpec(cfg, lower, caret, provided).value.matchStart;
    if ms <= |str| {
      var e := if caret <= |str| then caret else |str|;
      assert Substring(lower, ms, caret) == lower[ms..e];
      assert Substr(str, ms, e - ms) == str[ms..e];
      ToLowerSlice(str, ms, e);
    }
  }


  // ---------------------------------------------------------------------
  // Keys and the selection.

  /** Arrow up undoes arrow down, and arrow down undoes arrow up. */
  lemma UpDownInverse(h: HelperState)
    requires h.visible && SelectionInRange(h)
    ensures SelectionInRange(Down(h)) && Up(Down(h)) == h
    ensures SelectionInRange(Up(h)) && Down(Up(h)) == h
  {
    var n, s := |h.options|, h.selection;
    ModStep(s, n);
    var d, u := (s + 1) % n, (n + s - 1) % n;
    ModStep(d, n);
    ModStep(u, n);
  }

  /** Arrow down on the last option selects the first; arrow up on the first selects the last. */
  lemma WrapAround(h: HelperState)
    requires h.visible && SelectionInRange(h)
    ensures h.selection == |h.options| - 1 ==> Down(h).selection == 0
    ensures h.selection == 0 ==> Up(h).selection == |h.options| - 1
  {
    ModStep(h.selection, |h.options|);
  }

  /** `k` presses of arrow down. */
  function Downs(h: HelperState, k: nat): (r: HelperState)
    requires h.visible && SelectionInRange(h)
    ensures r.visible && SelectionInRange(r) && r.options == h.options
  {
    if k == 0 then h else Down(Downs(h, k - 1))
  }

  /** After `k` presses of arrow down the selection has advanced by `k`,
      modulo the number of options. */
  lemma {:induction false} DownsAdvance(h: HelperState, k: nat)
    requires h.visible && SelectionInRange(h)
    ensures Downs(h, k) == h.(selection := (h.selection + k) % |h.options|)
  {
    var n := |h.options|;
    if k == 0 {
      ModUnique(h.selection, n, 0, h.selection);
    } else {
      DownsAdvance(h, k - 1);
      ModAdd(h.selection + k - 1, n);
    }
  }

  /** As many presses of arrow down as there are options return to the start. */
  lemma DownsCycle(h: HelperState)
    requires h.visible && SelectionInRange(h)
    ensures Downs(h, |h.options|) == h
  {
    DownsAdvance(h, |h.options|);
    ModUnique(h.selection + |h.options|, |h.options|, 1, h.selection);
  }

  lemma {:induction false} MulAtLeast(k: int, n: int)
    requires k >= 1 && n >= 0
    ensures k * n >= n
    decreases k
  {
    if k > 1 {
      MulAtLeast(k - 1, n);
      assert k * n == (k - 1) * n + n;
    }
  }

  lemma MulBetween(d: int, n: int)
    requires n > 0 && -n < d * n < n
    ensures d == 0
  {
    if d >= 1 {
      MulAtLeast(d, n);
    } else if d <= -1 {
      MulAtLeast(-d, n);
    }
  }

  /** Division with remainder is unique. */
  lemma ModUnique(a: int, n: int, q: int, r: int)
    requires n > 0 && 0 <= r < n && a == q * n + r
    ensures a % n == r
  {
    var q' := a / n;
    assert a == q' * n + a % n;
    assert (q - q') * n == q * n - q' * n;
    MulBetween(q - q', n);
  }

  /** One step forward or back on a ring of `n` positions. */
  lemma ModStep(s: int, n: int)
    requires 0 <= s < n
    ensures (s + 1) % n == if s + 1 == n then 0 else s + 1
    ensures (n + s - 1) % n == if s == 0 then n - 1 else s - 1
  {
    if s + 1 == n { ModUnique(s + 1, n, 1, 0); } else { ModUnique(s + 1, n, 0, s + 1); }
    if s == 0 { ModUnique(n + s - 1, n, 0, n - 1); } else { ModUnique(n + s - 1, n, 1, s - 1); }
  }

  lemma ModAdd(a: int, n: int)
    requires n > 0 && a >= 0
    ensures ((a % n) + 1) % n == (a + 1) % n
  {
    var q, r := a / n, a % n;
    assert a == q * n + r;
    ModStep(r, n);
    if r + 1 == n {
      assert a + 1 == (q + 1) * n + 0;
      ModUnique(a + 1, n, q + 1, 0);
    } else {
      ModUnique(a + 1, n, q, r + 1);
    }
  }

  /** Every transition the corrected widget makes keeps the selection in
      range: reset, resize, showing a list worth showing, the arrows, and
      hovering a rendered row. */
  lemma TransitionsKeepSelectionInRange(h: HelperState, m: Match, idx: int, maxOptions: int)
    requires SelectionInRange(h)
    ensures SelectionInRange(Reset(h)) && SelectionInRange(Resize(h))
    ensures ShowsList(m) ==> SelectionInRange(ShowList(h, m))
    ensures h.visible ==> SelectionInRange(Down(h)) && SelectionInRange(Up(h))
    ensures 0 <= idx < |RenderedOptions(h.options, maxOptions)| ==> SelectionInRange(Hover(h, idx))
  {
    RenderedRows(h.options, maxOptions);
  }

  /** The candidates and text of the stale-selection example below. */
  lemma StaleSelectionMatch()
    ensures var provided := ["aa", "ab", "abc"];
      MatchSpec(Defaults(provided), "@ab", 3, provided) == Some(Match(1, 2, ["ab", "abc"]))
  {
    var provided := ["aa", "ab", "abc"];
    var cfg := Defaults(provided);
    var str := "@ab";
    assert Substr(str, 0, 1) == "@" && Substr(str, 1, 1) == "a" && Substr(str, 2, 1) == "b";
    assert Substring(str, 2, 3) == "b" && DefaultAccepts("b");
    assert Substring(str, 1, 3) == "ab" && DefaultAccepts("ab");
    assert Hit(cfg, str, 0) && !Hit(cfg, str, 1) && !Hit(cfg, str, 2);
    assert ScanStart(cfg, str, 3, 0) == Some(1);
    assert ScanStart(cfg, str, 3, 1) == Some(1);
    assert ScanStart(cfg, str, 3, 2) == Some(1);
    StaleSelectionFilter();
  }

  lemma StaleSelectionFilter()
    ensures Filter(["aa", "ab", "abc"], "ab", false) == ["ab", "abc"]
  {
    var provided := ["aa", "ab", "abc"];
    assert "aa"[0..2][1] != "ab"[1];
    assert !OccursAt("aa", "ab", 0) && OccursAt("ab", "ab", 0) && OccursAt("abc", "ab", 0);
    assert provided[1..] == ["ab", "abc"] && provided[2..] == ["abc"] && provided[3..] == [];
  }

  /** As written, re-showing the list with fewer options keeps a stale
      selection: with candidates "aa", "ab", "abc", typing "@a", pressing
      arrow down twice and then typing "@ab" leaves selection 2 over the two
      options "ab", "abc", and Enter would pick the missing third option.
      The corrected show branch selects the first option instead. */
  lemma ShowAsWrittenLeavesRange()
    ensures var provided := ["aa", "ab", "abc"];
      var before := HelperState(true, 0, provided, 1, 1);
      var twice := Down(Down(before));
      var found := MatchSpec(Defaults(provided), "@ab", 3, provided);
      && found == Some(Match(1, 2, ["ab", "abc"]))
      && ShowsList(found.value)
      && SelectionInRange(twice) && twice.selection == 2
      && !SelectionInRange(ShowAsWritten(twice, found.value))
      && ShowList(twice, found.value).selection == 0
  {
    var provided := ["aa", "ab", "abc"];
    var before := HelperState(true, 0, provided, 1, 1);
    StaleSelectionMatch();
    ModStep(0, 3);
    ModStep(1, 3);
  }

  // ---------------------------------------------------------------------
  // Rendering the list.

  /** The number of rows `renderAutocompleteList` asks for: all for 0. */
  function OptionNumber(maxOptions: int, n: nat): int
  {
    if maxOptions == 0 then n else maxOptions
  }

  /** `options.slice(0, optionNumber)`: the rows rendered. */
  function RenderedOptions(options: seq<string>, maxOptions: int): seq<string>
  {
    Slice(options, 0, OptionNumber(maxOptions, |options|))
  }

  /** The rendered rows are a prefix of the options: all of them for
      `maxOptions` 0, at most `maxOptions` for a positive one, and (as
      `slice` counts a negative end from the back) all but `-maxOptions`
      for a negative one. */
  lemma RenderedRows(options: seq<string>, maxOptions: int)
    ensures var rows := RenderedOptions(options, maxOptions);
      && rows == options[..|rows|]
      && (maxOptions == 0 ==> |rows| == |options|)
      && (maxOptions > 0 ==> |rows| == if maxOptions < |options| then maxOptions else |options|)
      && (maxOptions < 0 ==> |rows| == if |options| + maxOptions < 0 then 0 else |options| + maxOptions)
  {
  }

  /** The three pieces of a row: before the highlight, the highlighted
      (bold) part, and after it. */
  function HighlightParts(val: string, highlightStart: int, matchLength: int): (string, string, string)
  {
    (Slice(val, 0, highlightStart), Substr(val, highlightStart, matchLength), SliceFrom(val, highlightStart + matchLength))
  }

  /** The row of option `val` when the text holds `value` and the slug is
      at `matchStart` with length `matchLength`. */
  function RowParts(val: string, value: string, matchStart: int, matchLength: int): (string, string, string)
  {
    HighlightParts(val, IndexOf(val, Substr(value, matchStart, matchLength)), matchLength)
  }

  /** For a highlight start inside the option, the pieces reassemble the option. */
  lemma HighlightReassembles(val: string, highlightStart: int, matchLength: int)
    requires 0 <= highlightStart <= |val| && 0 <= matchLength
    ensures var (a, b, c) := HighlightParts(val, highlightStart, matchLength); a + b + c == val
  {
    var e := if highlightStart + matchLength <= |val| then highlightStart + matchLength else |val|;
    assert val == val[..highlightStart] + val[highlightStart..e] + val[e..];
  }

  /** Highlighting at the first occurrence of a slug that occurs in the
      option: the bold piece is the slug there, with no earlier occurrence,
      and the pieces reassemble the option. */
  lemma HighlightFirst(val: string, slug: string)
    requires IsInfix(slug, val)
    ensures var (a, b, c) := HighlightParts(val, IndexOf(val, slug), |slug|);
      && b == slug
      && a + b + c == val
      && OccursAt(val, b, |a|)
      && forall k :: 0 <= k < |a| ==> !OccursAt(val, b, k)
  {
    IndexOfFinds(val, slug);
    HighlightReassembles(val, IndexOf(val, slug), |slug|);
  }

  /** When the typed slug occurs in the option, the highlighted piece is the
      slug at its first occurrence and the pieces reassemble the option. */
  lemma RowHighlightsSlug(val: string, value: string, matchStart: int, matchLength: int)
    requires 0 <= matchStart && 0 <= matchLength && matchStart + matchLength <= |value|
    requires IsInfix(value[matchStart..matchStart + matchLength], val)
    ensures var (a, b, c) := RowParts(val, value, matchStart, matchLength);
      && b == value[matchStart..matchStart + matchLength]
      && a + b + c == val
      && OccursAt(val, b, |a|)
      && forall k :: 0 <= k < |a| ==> !OccursAt(val, b, k)
  {
    var slug := value[matchStart..matchStart + matchLength];
    assert Substr(value, matchStart, matchLength) == slug;
    HighlightFirst(val, slug);
  }

  /** With "@Ab" typed, the options are filtered by the lower-cased slug
      "ab": the option "abc" is offered and the list is shown. */
  lemma MixedCaseMatch()
    ensures MatchSpec(Defaults(["abc"]), ToLower("@Ab"), 3, ["abc"]) == Some(Match(1, 2, ["abc"]))
    ensures ShowsList(Match(1, 2, ["abc"]))
  {
    var cfg := Defaults(["abc"]);
    var str := "@ab";
    MixedCaseLowers();
    assert Substr(str, 0, 1) == "@" && Substr(str, 1, 1) == "a" && Substr(str, 2, 1) == "b";
    assert Substring(str, 2, 3) == "b" && DefaultAccepts("b");
    assert Substring(str, 1, 3) == "ab" && DefaultAccepts("ab");
    assert Hit(cfg, str, 0) && !Hit(cfg, str, 1) && !Hit(cfg, str, 2);
    assert ScanStart(cfg, str, 3, 0) == Some(1);
    assert ScanStart(cfg, str, 3, 1) == Some(1);
    assert ScanStart(cfg, str, 3, 2) == Some(1);
    MixedCaseFilter();
  }

  /** "@Ab" lower-cases to "@ab". */
  lemma MixedCaseLowers()
    ensures ToLower("@Ab") == "@ab"
  {
    ToLowerChars("@Ab");
  }

  /** The slug "ab" keeps "abc". */
  lemma MixedCaseFilter()
    ensures Filter(["abc"], "ab", false) == ["abc"]
  {
    assert OccursAt("abc", "ab", 0);
    KeepsMeaning("abc", "ab", false);
  }

  /** The row of that option looks for the typed "Ab", does not find it,
      and renders "ab", a bold "c" and "bc": it no longer spells the option. */
  lemma MixedCaseRowGarbled()
    ensures RowParts("abc", "@Ab", 1, 2) == ("ab", "c", "bc")
    ensures var (a, b, c) := RowParts("abc", "@Ab", 1, 2); a + b + c != "abc"
  {
    assert Substr("@Ab", 1, 2) == "Ab";
    assert !IsInfix("Ab", "abc") by {
      forall k | 0 <= k <= 1 ensures !OccursAt("abc", "Ab", k) {
        assert "abc"[k] != 'A';
      }
    }
    IndexOfFinds("abc", "Ab");
    assert IndexOf("abc", "Ab") == -1;
    assert Slice("abc", 0, -1) == "ab";
    assert RelativeIndex(-1, 3) == 2 && Clamp(2, 1) == 1;
    assert Substr("abc", -1, 2) == "abc"[2..3] == "c";
    assert SliceFrom("abc", 1) == "bc";
  }

  /** The row as evidently intended: look for the slug the options were
      filtered by, the lower-cased text. */
  function RowPartsLowered(val: string, value: string, matchStart: int, matchLength: int): (string, string, string)
  {
    HighlightParts(val, IndexOf(val, ToLower(Substr(value, matchStart, matchLength))), matchLength)
  }

  /** Every option the filter keeps contains the lower-cased slug, so the
      corrected row highlights that slug at its first occurrence and spells
      the option, whatever the case of the typed text. */
  lemma LoweredRowHighlightsSlug(val: string, value: string, matchStart: int, matchLength: int)
    requires 0 <= matchStart && 0 <= matchLength && matchStart + matchLength <= |value|
    requires IsInfix(ToLower(value[matchStart..matchStart + matchLength]), val)
    ensures var (a, b, c) := RowPartsLowered(val, value, matchStart, matchLength);
      && b == ToLower(value[matchStart..matchStart + matchLength])
      && a + b + c == val
      && OccursAt(val, b, |a|)
      && forall k :: 0 <= k < |a| ==> !OccursAt(val, b, k)
  {
    var slug := ToLower(value[matchStart..matchStart + matchLength]);
    assert Substr(value, matchStart, matchLength) == value[matchStart..matchStart + matchLength];
    HighlightFirst(val, slug);
  }

  /** Every option a match offers contains the lower-cased slug cut from the
      text, so the corrected row bolds that slug and spells the option, for
      every option in the list. */
  lemma LoweredRowsSpellOptions(cfg: Config, str: string, caret: int, provided: seq<string>)
    requires MatchSpec(cfg, ToLower(str), caret, provided).Some?
    requires MatchSpec(cfg, ToLower(str), caret, provided).value.matchStart <= caret <= |str|
    ensures var m := MatchSpec(cfg, ToLower(str), caret, provided).value;
      var ms, ml := m.matchStart, m.matchLength;
      && 0 <= ms && ms + ml <= |str|
      && forall k :: 0 <= k < |m.options| ==>
           && IsInfix(ToLower(str[ms..ms + ml]), m.options[k])
           && var (a, b, c) := RowPartsLowered(m.options[k], str, ms, ml);
              b == ToLower(str[ms..ms + ml]) && a + b + c == m.options[k]
  {
    var lower := ToLower(str);
    MatchOptions(cfg, lower, caret, provided);
    MatchFound(cfg, lower, caret, provided);
    var m := MatchSpec(cfg, lower, caret, provided).value;
    var ms, ml := m.matchStart, m.matchLength;
    assert Substring(lower, ms, caret) == lower[ms..caret];
    ToLowerSlice(str, ms, caret);
    assert ml == caret - ms;
    forall k | 0 <= k < |m.options|
      ensures IsInfix(ToLower(str[ms..ms + ml]), m.options[k])
      ensures var (a, b, c) := RowPartsLowered(m.options[k], str, ms, ml);
              b == ToLower(str[ms..ms + ml]) && a + b + c == m.options[k]
    {
      LoweredRowHighlightsSlug(m.options[k], str, ms, ml);
    }
  }
}
