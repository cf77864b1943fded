/// The match finder of AutocompleteTextField: `getMatch` and `isTrigger`.
/// Scanning left from the caret, it looks for the nearest occurrence of the
/// trigger that is followed by a run of text the regex accepts, and filters
/// the candidate list by the text between the trigger and the caret.
module Matcher {
  import opened JsText
  import opened Props

  /** The object `getMatch` returns. */
  datatype Match = Match(matchStart: int, matchLength: int, options: seq<string>)

  /** `isTrigger(str, i)`: an empty trigger is found everywhere, a non-empty
      one where `str.substr(i, |trigger|)` equals it. */
  function IsTrigger(trigger: string, str: string, i: int): (b: bool)
    ensures 0 <= i ==> (b <==> |trigger| == 0 || OccursAt(str, trigger, i))
  {
    |trigger| == 0 || Substr(str, i, |trigger|) == trigger
  }

  /** The filter callback: `slug` is found in `option`, at its start unless
      `matchAny` is set. */
  predicate Keeps(option: string, slug: string, matchAny: bool)
  {
    var idx := IndexOf(option, slug);
    idx != -1 && (matchAny || idx == 0)
  }

  /** A candidate is kept exactly when the slug occurs in it, at its start
      unless `matchAny` is set. */
  lemma KeepsMeaning(option: string, slug: string, matchAny: bool)
    ensures Keeps(option, slug, matchAny) <==>
              if matchAny then IsInfix(slug, option) else OccursAt(option, slug, 0)
  {
    IndexOfFinds(option, slug);
  }

  /** `providedOptions.filter(...)`. */
  function Filter(provided: seq<string>, slug: string, matchAny: bool): seq<string>
  {
    if provided == [] then []
    else (if Keeps(provided[0], slug, matchAny) then [provided[0]] else [])
         + Filter(provided[1..], slug, matchAny)
  }

  /** The filtered list holds only kept candidates from the provided list,
      and every kept candidate. */
  lemma {:induction false} FilterKeeps(provided: seq<string>, slug: string, matchAny: bool)
    ensures forall o :: o in Filter(provided, slug, matchAny) ==> Keeps(o, slug, matchAny) && o in provided
    ensures forall o :: o in provided && Keeps(o, slug, matchAny) ==> o in Filter(provided, slug, matchAny)
  {
    if provided != [] {
      var r, rest := Filter(provided, slug, matchAny), Filter(provided[1..], slug, matchAny);
      FilterKeeps(provided[1..], slug, matchAny);
      if Keeps(provided[0], slug, matchAny) {
        assert r == [provided[0]] + rest;
        assert forall k :: 1 <= k < |r| ==> r[k] == rest[k - 1];
      } else {
        assert r == rest;
      }
      assert forall o :: o in provided ==> o == provided[0] || o in provided[1..];
    }
  }

  /** `a` is an order-preserving subsequence of `b`. */
  ghost predicate IsSubsequence(a: seq<string>, b: seq<string>)
  {
    a == [] || (b != [] && ((a[0] == b[0] && IsSubsequence(a[1..], b[1..])) || IsSubsequence(a, b[1..])))
  }

  /** The filtered list keeps the candidates' order. */
  lemma {:induction false} FilterIsSubsequence(provided: seq<string>, slug: string, matchAny: bool)
    ensures IsSubsequence(Filter(provided, slug, matchAny), provided)
  {
    if provided != [] {
      var r, rest := Filter(provided, slug, matchAny), Filter(provided[1..], slug, matchAny);
      FilterIsSubsequence(provided[1..], slug, matchAny);
      if Keeps(provided[0], slug, matchAny) {
        assert r[0] == provided[0] && r[1..] == rest;
      } else {
        assert r == rest;
      }
    }
  }

  /** The filtered list holds every qualifying candidate as often as the
      provided list does, and nothing else. */
  lemma {:induction false} FilterCounts(provided: seq<string>, slug: string, matchAny: bool, o: string)
    ensures multiset(Filter(provided, slug, matchAny))[o] ==
              if Keeps(o, slug, matchAny) then multiset(provided)[o] else 0
  {
    if provided != [] {
      FilterCounts(provided[1..], slug, matchAny, o);
      assert provided == [provided[0]] + provided[1..];
    }
  }

  /** An empty slug keeps every candidate (the `@`-only case). */
  lemma {:induction false} FilterEmptySlug(provided: seq<string>, matchAny: bool)
    ensures Filter(provided, "", matchAny) == provided
  {
    if provided != [] {
      assert OccursAt(provided[0], "", 0);
      KeepsMeaning(provided[0], "", matchAny);
      FilterEmptySlug(provided[1..], matchAny);
    }
  }

  // ---------------------------------------------------------------------
  // The scan of `getMatch`, stated declaratively.

  /** Where the scan at position `i` looks for the trigger: at `i` itself
      when the regex accepts the trigger, else so that the trigger ends at `i`. */
  function TriggerIdx(cfg: Config, i: int): int
  {
    if cfg.accepts(cfg.trigger) then i else i - |cfg.trigger| + 1
  }

  /** The scan at position `i` finds the trigger. */
  predicate Hit(cfg: Config, str: string, i: int)
  {
    TriggerIdx(cfg, i) >= 0 && IsTrigger(cfg.trigger, str, TriggerIdx(cfg, i))
  }

  /** The regex accepts `str.substring(j, caret)`. */
  predicate RunAccepted(cfg: Config, str: string, j: int, caret: int)
  {
    cfg.accepts(Substring(str, j, caret))
  }

  /** With a non-empty trigger: `i` is the position, nearest to the caret,
      where the trigger is found, and every run between it and the caret is
      accepted. */
  ghost predicate NearestTrigger(cfg: Config, str: string, caret: int, i: int)
  {
    && 0 <= i < caret
    && Hit(cfg, str, i)
    && forall j :: i < j < caret ==> !Hit(cfg, str, j) && RunAccepted(cfg, str, j, caret)
  }

  /** With an empty trigger: `k` is the least start from which every run up
      to the caret is accepted. */
  ghost predicate RunStart(cfg: Config, str: string, caret: int, k: int)
  {
    && 0 <= k <= caret
    && (forall j :: k <= j < caret ==> RunAccepted(cfg, str, j, caret))
    && (k == 0 || !RunAccepted(cfg, str, k - 1, caret))
  }

  lemma NearestTriggerUnique(cfg: Config, str: string, caret: int, i1: int, i2: int)
    requires NearestTrigger(cfg, str, caret, i1) && NearestTrigger(cfg, str, caret, i2)
    ensures i1 == i2
  {
  }

  lemma RunStartUnique(cfg: Config, str: string, caret: int, k1: int, k2: int)
    requires RunStart(cfg, str, caret, k1) && RunStart(cfg, str, caret, k2)
    ensures k1 == k2
  {
  }

  /** Every caret has a run start: descend from `k` while the runs are accepted. */
  lemma {:induction false} RunStartExists(cfg: Config, str: string, caret: int, k: int)
    requires 0 <= k <= caret
    requires forall j :: k <= j < caret ==> RunAccepted(cfg, str, j, caret)
    ensures exists k' :: RunStart(cfg, str, caret, k')
    decreases k
  {
    if k == 0 || !RunAccepted(cfg, str, k - 1, caret) {
      assert RunStart(cfg, str, caret, k);
    } else {
      RunStartExists(cfg, str, caret, k - 1);
    }
  }

  /** The result for a slug starting at `matchStart`. */
  function Found(cfg: Config, str: string, caret: int, provided: seq<string>, matchStart: int): Match
  {
    var slug := Substring(str, matchStart, caret);
    Match(matchStart, |slug|, Filter(provided, slug, cfg.matchAny))
  }

  /** Where the slug of `getMatch(str, caret, ...)` starts: right after
      the nearest trigger, or at the least run start; None for null. */
  ghost function MatchStartSpec(cfg: Config, str: string, caret: int): Option<int>
  {
    if |cfg.trigger| > 0 then
      if exists i :: NearestTrigger(cfg, str, caret, i) then
        var i :| NearestTrigger(cfg, str, caret, i);
        Some(TriggerIdx(cfg, i) + |cfg.trigger|)
      else None
    else if caret <= 0 then None
    else
      RunStartExists(cfg, str, caret, caret);
      var k :| RunStart(cfg, str, caret, k);
      if k == caret then None else Some(k)
  }

  /** The countdown of `getMatch` from position `i` down, one position per
      step: where the slug starts, or None when the scan gives up. */
  ghost function ScanStart(cfg: Config, str: string, caret: int, i: int): Option<int>
    decreases i + 1
  {
    if i < 0 then None
    else if |cfg.trigger| > 0 then
      if TriggerIdx(cfg, i) < 0 then None
      else if Hit(cfg, str, i) then Some(TriggerIdx(cfg, i) + |cfg.trigger|)
      else if !RunAccepted(cfg, str, i, caret) then None
      else ScanStart(cfg, str, caret, i - 1)
    else if RunAccepted(cfg, str, i, caret) && i > 0 then ScanStart(cfg, str, caret, i - 1)
    else
      var matchStart := if i == 0 && RunAccepted(cfg, str, i, caret) then 0 else i + 1;
      if caret - matchStart == 0 then None else Some(matchStart)
  }

  /** What `getMatch(str, caret, provided)` returns: the result of the
      countdown from `caret - 1`. `MatchSpecDeclared` shows that it starts
      where `MatchStartSpec` says. */
  ghost function MatchSpec(cfg: Config, str: string, caret: int, provided: seq<string>): Option<Match>
  {
    var start := ScanStart(cfg, str, caret, caret - 1);
    if start.None? then None else Some(Found(cfg, str, caret, provided, start.value))
  }

  lemma StartAtNearest(cfg: Config, str: string, caret: int, i: int)
    requires |cfg.trigger| > 0 && NearestTrigger(cfg, str, caret, i)
    ensures MatchStartSpec(cfg, str, caret) == Some(TriggerIdx(cfg, i) + |cfg.trigger|)
  {
    forall i' | NearestTrigger(cfg, str, caret, i') ensures i' == i {
      NearestTriggerUnique(cfg, str, caret, i, i');
    }
  }

  lemma StartAtRunStart(cfg: Config, str: string, caret: int, k: int)
    requires |cfg.trigger| == 0 && caret > 0 && RunStart(cfg, str, caret, k)
    ensures MatchStartSpec(cfg, str, caret) == if k == caret then None else Some(k)
  {
    forall k' | RunStart(cfg, str, caret, k') ensures k' == k {
      RunStartUnique(cfg, str, caret, k, k');
    }
  }

  /** The positions the scan has passed, between `i` and the caret: each
      run from them to the caret is accepted and, with a non-empty trigger,
      none of them finds the trigger. */
  ghost predicate Scanned(cfg: Config, str: string, caret: int, i: int)
  {
    forall j :: i < j < caret ==> RunAccepted(cfg, str, j, caret) && (|cfg.trigger| > 0 ==> !Hit(cfg, str, j))
  }

  /** The scan moves past a position whose run is accepted and, with a
      non-empty trigger, that does not find the trigger. */
  lemma ScannedStep(cfg: Config, str: string, caret: int, i: int)
    requires Scanned(cfg, str, caret, i)
    requires RunAccepted(cfg, str, i, caret) && (|cfg.trigger| > 0 ==> !Hit(cfg, str, i))
    ensures Scanned(cfg, str, caret, i - 1)
  {
  }

  /** With a non-empty trigger, no match when no scan position before the
      caret that could still be reached finds the trigger or passes the regex. */
  lemma StartNone(cfg: Config, str: string, caret: int, i: int)
    requires |cfg.trigger| > 0 && i < caret
    requires forall j :: i < j < caret ==> !Hit(cfg, str, j)
    requires i >= 0 ==> !Hit(cfg, str, i) && (TriggerIdx(cfg, i) < 0 || !RunAccepted(cfg, str, i, caret))
    ensures MatchStartSpec(cfg, str, caret) == None
  {
    forall i' ensures !NearestTrigger(cfg, str, caret, i') {
      if 0 <= i' < i && TriggerIdx(cfg, i) >= 0 {
        assert !RunAccepted(cfg, str, i, caret);
      }
    }
  }

  /** What the scan decides at position `i` with a non-empty trigger: stop
      when the trigger would start before the text, return the slug after a
      trigger found there, stop at a rejected run, or move on. */
  lemma TriggerScanCases(cfg: Config, str: string, caret: int, i: int)
    requires |cfg.trigger| > 0 && 0 <= i < caret && Scanned(cfg, str, caret, i)
    ensures TriggerIdx(cfg, i) < 0 ==> MatchStartSpec(cfg, str, caret) == None
    ensures Hit(cfg, str, i) ==> MatchStartSpec(cfg, str, caret) == Some(TriggerIdx(cfg, i) + |cfg.trigger|)
    ensures !Hit(cfg, str, i) && !RunAccepted(cfg, str, i, caret) ==> MatchStartSpec(cfg, str, caret) == None
    ensures !Hit(cfg, str, i) && RunAccepted(cfg, str, i, caret) ==> Scanned(cfg, str, caret, i - 1)
  {
    if TriggerIdx(cfg, i) < 0 || (!Hit(cfg, str, i) && !RunAccepted(cfg, str, i, caret)) {
      StartNone(cfg, str, caret, i);
    } else if Hit(cfg, str, i) {
      StartAtNearest(cfg, str, caret, i);
    }
  }

  /** With an empty trigger, the countdown ends at the first position whose
      run is rejected, or at 0: the slug is the run after it. */
  lemma RunScanEnds(cfg: Config, str: string, caret: int, i: int)
    requires |cfg.trigger| == 0 && 0 <= i < caret && Scanned(cfg, str, caret, i)
    requires !(RunAccepted(cfg, str, i, caret) && i > 0)
    ensures ScanStart(cfg, str, caret, i) == MatchStartSpec(cfg, str, caret)
  {
    var matchStart := if i == 0 && RunAccepted(cfg, str, i, caret) then 0 else i + 1;
    assert RunStart(cfg, str, caret, matchStart);
    StartAtRunStart(cfg, str, caret, matchStart);
  }

  /** Once the positions above `i` are scanned, the rest of the countdown
      finds where the slug is declared to start. */
  lemma {:induction false} ScanStartMeetsSpec(cfg: Config, str: string, caret: int, i: int)
    requires i < caret && Scanned(cfg, str, caret, i)
    requires |cfg.trigger| == 0 ==> 0 <= i || caret <= 0
    ensures ScanStart(cfg, str, caret, i) == MatchStartSpec(cfg, str, caret)
    decreases i + 1
  {
    if i < 0 {
      if |cfg.trigger| > 0 {
        StartNone(cfg, str, caret, i);
      }
    } else if |cfg.trigger| > 0 {
      TriggerScanCases(cfg, str, caret, i);
      if TriggerIdx(cfg, i) >= 0 && !Hit(cfg, str, i) && RunAccepted(cfg, str, i, caret) {
        ScanStartMeetsSpec(cfg, str, caret, i - 1);
      }
    } else if RunAccepted(cfg, str, i, caret) && i > 0 {
      ScannedStep(cfg, str, caret, i);
      ScanStartMeetsSpec(cfg, str, caret, i - 1);
    } else {
      RunScanEnds(cfg, str, caret, i);
    }
  }

  /** The countdown finds the declared start: the slug after the nearest
      trigger, or the least start from which every run up to the caret is
      accepted, for every input. */
  lemma MatchSpecDeclared(cfg: Config, str: string, caret: int, provided: seq<string>)
    ensures var start := MatchStartSpec(cfg, str, caret);
      MatchSpec(cfg, str, caret, provided)
      == if start.None? then None else Some(Found(cfg, str, caret, provided, start.value))
  {
    ScanStartMeetsSpec(cfg, str, caret, caret - 1);
  }

  /** `getMatch`: the countdown scan from `caret - 1` with its early returns. */
  method GetMatch(cfg: Config, str: string, caret: int, provided: seq<string>) returns (r: Option<Match>)
    ensures r == MatchSpec(cfg, str, caret, provided)
  {
    var triggerLength := |cfg.trigger|;
    var triggerMatch := cfg.accepts(cfg.trigger);
    var i := caret - 1;
    while i >= 0
      invariant i < caret
      invariant ScanStart(cfg, str, caret, i) == ScanStart(cfg, str, caret, caret - 1)
      decreases i
    {
      var substr := Substring(str, i, caret);
      var matched := cfg.accepts(substr);
      assert matched == RunAccepted(cfg, str, i, caret);
      var matchStart := -1;

      if triggerLength > 0 {
        var triggerIdx := if triggerMatch then i else i - triggerLength + 1;
        assert triggerIdx == TriggerIdx(cfg, i);
        if triggerIdx < 0 {
          // out of input
          return None;
        }
        if IsTrigger(cfg.trigger, str, triggerIdx) {
          assert Hit(cfg, str, i);
          matchStart := triggerIdx + triggerLength;
          assert ScanStart(cfg, str, caret, i) == Some(matchStart);
        }
        if !matched && matchStart < 0 {
          return None;
        }
      } else {
        if matched && i > 0 {
          // find the first non-matching character or the beginning of the input
          assert ScanStart(cfg, str, caret, i) == ScanStart(cfg, str, caret, i - 1);
          i := i - 1;
          continue;
        }
        matchStart := if i == 0 && matched then 0 else i + 1;
        assert ScanStart(cfg, str, caret, i) == if caret - matchStart == 0 then None else Some(matchStart);
        if caret - matchStart == 0 {
          // the matched slug is empty
          return None;
        }
      }

      if matchStart >= 0 {
        return Some(Found(cfg, str, caret, provided, matchStart));
      }
      assert ScanStart(cfg, str, caret, i) == ScanStart(cfg, str, caret, i - 1);
      i := i - 1;
    }
    return None;
  }
}

module MatcherProperties {
  import opened JsText
  import opened Props
  import opened Matcher

  /** The cases in which `getMatch` returns null: the caret at the start,
      the caret past the text, no trigger before the caret, or (with an
      empty trigger) an empty slug. */
  lemma NoMatchCases(cfg: Config, str: string, caret: int, provided: seq<string>)
    ensures caret <= 0 ==> MatchSpec(cfg, str, caret, provided) == None
    ensures caret > |str| && !cfg.accepts("") ==> MatchSpec(cfg, str, caret, provided) == None
    ensures |cfg.trigger| > 0 && (forall k :: 0 <= k < caret ==> !OccursAt(str, cfg.trigger, k))
            ==> MatchSpec(cfg, str, caret, provided) == None
    ensures |cfg.trigger| == 0 && !RunAccepted(cfg, str, caret - 1, caret)
            ==> MatchSpec(cfg, str, caret, provided) == None
  {
    MatchSpecDeclared(cfg, str, caret, provided);
    if |cfg.trigger| > 0 {
      if caret > |str| && !cfg.accepts("") {
        assert Substring(str, caret - 1, caret) == [];
        forall i ensures !NearestTrigger(cfg, str, caret, i) {
          if 0 <= i < caret - 1 {
            assert !RunAccepted(cfg, str, caret - 1, caret);
          }
        }
      }
      if forall k :: 0 <= k < caret ==> !OccursAt(str, cfg.trigger, k) {
        forall i ensures !NearestTrigger(cfg, str, caret, i) {
          if 0 <= i < caret && TriggerIdx(cfg, i) >= 0 {
            assert !OccursAt(str, cfg.trigger, TriggerIdx(cfg, i));
          }
        }
      }
    } else if caret > 0 && !RunAccepted(cfg, str, caret - 1, caret) {
      assert RunStart(cfg, str, caret, caret);
      StartAtRunStart(cfg, str, caret, caret);
    }
  }

  /** What a non-null result of `getMatch` satisfies: the slug runs from
      `matchStart` to the caret and the options are filtered by it; with a
      non-empty trigger the trigger occurs right before `matchStart`, and
      when the regex rejects the trigger `matchStart` lies between the
      trigger and the caret with the slug accepted (or empty); with an empty
      trigger the slug is non-empty and `matchStart` is the least start from
      which every run up to the caret is accepted. */
  ghost predicate MatchShape(cfg: Config, str: string, caret: int, provided: seq<string>, m: Match)
  {
    && 0 < caret && 0 <= m.matchStart
    && m.matchLength == |Substring(str, m.matchStart, caret)|
    && m.options == Filter(provided, Substring(str, m.matchStart, caret), cfg.matchAny)
    && (|cfg.trigger| > 0 ==>
          && |cfg.trigger| <= m.matchStart <= |str|
          && str[m.matchStart - |cfg.trigger|..m.matchStart] == cfg.trigger)
    && (|cfg.trigger| > 0 && !cfg.accepts(cfg.trigger) ==>
          && m.matchStart <= caret
          && (m.matchStart == caret || RunAccepted(cfg, str, m.matchStart, caret)))
    && (|cfg.trigger| == 0 ==>
          && m.matchStart < caret
          && RunAccepted(cfg, str, m.matchStart, caret)
          && (forall j :: m.matchStart <= j < caret ==> RunAccepted(cfg, str, j, caret))
          && (m.matchStart == 0 || !RunAccepted(cfg, str, m.matchStart - 1, caret)))
    && (0 <= m.matchStart <= caret <= |str| ==> m.matchLength == caret - m.matchStart)
  }

  /** The slug after the nearest trigger has that shape. */
  lemma FoundAtNearest(cfg: Config, str: string, caret: int, provided: seq<string>, i: int)
    requires |cfg.trigger| > 0 && NearestTrigger(cfg, str, caret, i)
    ensures MatchShape(cfg, str, caret, provided, Found(cfg, str, caret, provided, TriggerIdx(cfg, i) + |cfg.trigger|))
  {
    var t, ms := cfg.trigger, TriggerIdx(cfg, i) + |cfg.trigger|;
    assert OccursAt(str, t, ms - |t|);
    assert |t| <= ms <= |str| && str[ms - |t|..ms] == t;
    if !cfg.accepts(t) {
      assert ms == i + 1 <= caret;
      if ms < caret {
        assert RunAccepted(cfg, str, ms, caret);
      }
    }
  }

  /** A non-empty slug from the run start has that shape. */
  lemma FoundAtRunStart(cfg: Config, str: string, caret: int, provided: seq<string>, k: int)
    requires |cfg.trigger| == 0 && RunStart(cfg, str, caret, k) && k < caret
    ensures MatchShape(cfg, str, caret, provided, Found(cfg, str, caret, provided, k))
  {
  }

  lemma MatchFound(cfg: Config, str: string, caret: int, provided: seq<string>)
    requires MatchSpec(cfg, str, caret, provided).Some?
    ensures MatchShape(cfg, str, caret, provided, MatchSpec(cfg, str, caret, provided).value)
  {
    MatchSpecDeclared(cfg, str, caret, provided);
    if |cfg.trigger| > 0 {
      var i :| NearestTrigger(cfg, str, caret, i);
      StartAtNearest(cfg, str, caret, i);
      FoundAtNearest(cfg, str, caret, provided, i);
      assert MatchSpec(cfg, str, caret, provided).value
          == Found(cfg, str, caret, provided, TriggerIdx(cfg, i) + |cfg.trigger|);
    } else {
      assert caret > 0;
      RunStartExists(cfg, str, caret, caret);
      var k :| RunStart(cfg, str, caret, k);
      StartAtRunStart(cfg, str, caret, k);
      FoundAtRunStart(cfg, str, caret, provided, k);
      assert MatchSpec(cfg, str, caret, provided).value == Found(cfg, str, caret, provided, k);
    }
  }

  /** The filtered list is an order-preserving subsequence of the provided
      list; each entry contains the slug, as a prefix unless `matchAny`; and
      every qualifying candidate is kept, as often as it occurs. */
  lemma FilterOptions(provided: seq<string>, slug: string, matchAny: bool)
    ensures var r := Filter(provided, slug, matchAny);
      && IsSubsequence(r, provided)
      && (forall k :: 0 <= k < |r| ==> IsInfix(slug, r[k]))
      && (!matchAny ==> forall k :: 0 <= k < |r| ==> OccursAt(r[k], slug, 0))
      && (forall o :: multiset(r)[o] == if Keeps(o, slug, matchAny) then multiset(provided)[o] else 0)
  {
    var r := Filter(provided, slug, matchAny);
    FilterIsSubsequence(provided, slug, matchAny);
    FilterKeeps(provided, slug, matchAny);
    forall k | 0 <= k < |r| ensures IsInfix(slug, r[k]) && (!matchAny ==> OccursAt(r[k], slug, 0)) {
      assert r[k] in r;
      KeepsMeaning(r[k], slug, matchAny);
      if !matchAny {
        assert OccursAt(r[k], slug, 0);
      }
    }
    forall o ensures multiset(r)[o] == if Keeps(o, slug, matchAny) then multiset(provided)[o] else 0 {
      FilterCounts(provided, slug, matchAny, o);
    }
  }

  /** The options of a match are an order-preserving subsequence of the
      provided list; each contains the slug, as a prefix unless `matchAny`;
      and every provided candidate that qualifies is kept, as often as it occurs. */
  lemma MatchOptions(cfg: Config, str: string, caret: int, provided: seq<string>)
    requires MatchSpec(cfg, str, caret, provided).Some?
    ensures var m := MatchSpec(cfg, str, caret, provided).value;
      var slug := Substring(str, m.matchStart, caret);
      && IsSubsequence(m.options, provided)
      && (forall k :: 0 <= k < |m.options| ==> IsInfix(slug, m.options[k]))
      && (!cfg.matchAny ==> forall k :: 0 <= k < |m.options| ==> OccursAt(m.options[k], slug, 0))
      && (forall o :: multiset(m.options)[o] == if Keeps(o, slug, cfg.matchAny) then multiset(provided)[o] else 0)
  {
    MatchFound(cfg, str, caret, provided);
    var m := MatchSpec(cfg, str, caret, provided).value;
    FilterOptions(provided, Substring(str, m.matchStart, caret), cfg.matchAny);
  }

  /** A trigger the regex rejects, typed right before the caret, matches
      with an empty slug and offers every candidate ("@" shows the whole list). */
  lemma {:induction false} TriggerAtCaretOffersAll(cfg: Config, str: string, caret: int, provided: seq<string>)
    requires |cfg.trigger| > 0 && !cfg.accepts(cfg.trigger)
    requires |cfg.trigger| <= caret <= |str| && str[caret - |cfg.trigger|..caret] == cfg.trigger
    ensures MatchSpec(cfg, str, caret, provided) == Some(Match(caret, 0, provided))
  {
    assert OccursAt(str, cfg.trigger, caret - |cfg.trigger|);
    assert NearestTrigger(cfg, str, caret, caret - 1);
    StartAtNearest(cfg, str, caret, caret - 1);
    FilterEmptySlug(provided, cfg.matchAny);
  }

  /** Under the default pattern a slug of that shape is made of slug
      characters, and with an empty trigger it cannot be extended left. */
  lemma DefaultShapeSlug(cfg: Config, str: string, caret: int, provided: seq<string>, m: Match)
    requires forall s :: cfg.accepts(s) <==> DefaultAccepts(s)
    requires MatchShape(cfg, str, caret, provided, m)
    requires caret <= |str| || (|cfg.trigger| > 0 && DefaultAccepts(cfg.trigger))
    ensures |cfg.trigger| == 0 || !DefaultAccepts(cfg.trigger) ==>
              && 0 <= m.matchStart <= caret <= |str|
              && forall k :: m.matchStart <= k < caret ==> IsSlugChar(str[k])
    ensures |cfg.trigger| == 0 ==> m.matchStart == 0 || !IsSlugChar(str[m.matchStart - 1])
  {
    if m.matchStart < caret && (|cfg.trigger| == 0 || !DefaultAccepts(cfg.trigger)) {
      assert RunAccepted(cfg, str, m.matchStart, caret);
      assert Substring(str, m.matchStart, caret) == str[m.matchStart..caret];
      forall k | m.matchStart <= k < caret ensures IsSlugChar(str[k]) {
        assert str[k] == str[m.matchStart..caret][k - m.matchStart];
      }
    }
    if |cfg.trigger| == 0 && m.matchStart > 0 {
      var run := str[m.matchStart - 1..caret];
      assert Substring(str, m.matchStart - 1, caret) == run;
      assert !DefaultAccepts(run);
      assert run[1..] == str[m.matchStart..caret];
      assert run[0] == str[m.matchStart - 1];
    }
  }

  /** Under the default pattern the slug is made of slug characters, and
      with an empty trigger it is the longest such run ending at the caret. */
  lemma DefaultPatternSlug(cfg: Config, str: string, caret: int, provided: seq<string>)
    requires forall s :: cfg.accepts(s) <==> DefaultAccepts(s)
    requires MatchSpec(cfg, str, caret, provided).Some?
    ensures var m := MatchSpec(cfg, str, caret, provided).value;
      && (|cfg.trigger| == 0 || !DefaultAccepts(cfg.trigger) ==>
            && 0 <= m.matchStart <= caret <= |str|
            && forall k :: m.matchStart <= k < caret ==> IsSlugChar(str[k]))
      && (|cfg.trigger| == 0 ==> m.matchStart == 0 || !IsSlugChar(str[m.matchStart - 1]))
  {
    NoMatchCases(cfg, str, caret, provided);
    MatchFound(cfg, str, caret, provided);
    DefaultShapeSlug(cfg, str, caret, provided, MatchSpec(cfg, str, caret, provided).value);
  }

  /** When the regex accepts the trigger itself, the scan looks for the
      trigger at the scanned position, so a caret inside the trigger yields
      a `matchStart` past the caret and `substring` swaps its arguments:
      trigger "ab", text "ab", caret 1 gives the slug "b". */
  lemma AcceptedTriggerPastCaret(cfg: Config)
    requires cfg.trigger == "ab" && cfg.accepts(cfg.trigger)
    ensures MatchSpec(cfg, "ab", 1, []) == Some(Match(2, 1, []))
  {
    assert OccursAt("ab", "ab", 0);
    assert NearestTrigger(cfg, "ab", 1, 0);
    StartAtNearest(cfg, "ab", 1, 0);
  }
}
