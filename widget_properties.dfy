/// What the handlers of AutocompleteTextField promise, stated on the
/// functions that specify them.
module WidgetProperties {
  import opened JsText
  import opened Props
  import opened Matcher
  import opened Selection
  import opened TextMutators
  import opened Widget

  /** `handleChange` keeps a visible list's selection in range. */
  lemma ChangeKeepsSelectionInRange(cfg: Config, w: WidgetState, str: string, c: nat)
    requires SelectionInRange(w.helper)
    ensures SelectionInRange(ChangeStep(cfg, w, str, c).0.helper)
  {
    var h := if |str| == 0 then w.helper.(visible := false) else w.helper;
    var found := MatchSpec(cfg, ToLower(str), c, cfg.options);
    if found.Some? && ShowsList(found.value) {
      TransitionsKeepSelectionInRange(h, found.value, 0, cfg.maxOptions);
    }
  }

  /** `handleChange` in general: the text becomes the new `recentValue`; an
      empty text hides the list and is handed on unchanged; the text handed to
      `onChange` is the typed one unless the space remover rewrote it, which
      needs an armed remover, and then the input element holds the rewrite;
      the remover never re-arms itself, and a change it does not rewrite
      (with removers configured, a caret and more than two characters)
      disarms it. */
  lemma ChangeOutcomes(cfg: Config, w: WidgetState, str: string, c: nat)
    ensures var (w1, eff) := ChangeStep(cfg, w, str, c);
      && w1.text.recentValue == str
      && (|str| == 0 ==> !w1.helper.visible && eff == Effects(str, None, None))
      && (eff.written.None? ==> eff.changed == str && w1.text.caret == c && w1.text.value == Some(str))
      && (eff.written.Some? ==> w.text.armed && w1.text.armed && eff.written == Some(eff.changed)
                                && eff.requested == None && w1.helper == w.helper)
      && (!w.text.armed ==> !w1.text.armed && eff.written == None)
      && (|str| > 2 && c > 0 && |cfg.spaceRemovers| > 0 && eff.written.None? ==> !w1.text.armed)
  {
  }

  /** The space remover's rewrite: at the first index where the new text
      differs from the previous one (the two agree before it) a remover was
      typed after a space; the rewrite keeps the characters and the length,
      puts the remover before the space, changes nothing else, and leaves the
      caret after the space. The list is left as it was. */
  lemma RemoverRewrite(cfg: Config, w: WidgetState, str: string, c: nat, i: nat)
    requires c > 0 && w.text.armed && |cfg.spaceRemovers| > 0 && |str| > 2
    requires RemoverSwap(cfg, w.text.recentValue, str, c) == Some(i)
    ensures var (w1, eff) := ChangeStep(cfg, w, str, c);
      var r := eff.changed;
      && 2 <= i < |str| && i <= |w.text.recentValue| && w.text.recentValue[..i] == str[..i]
      && |r| == |str| && multiset(r) == multiset(str)
      && IsRemover(cfg.spaceRemovers, r[i - 1]) && r[i - 1] == str[i] && r[i] == ' '
      && (forall k :: 0 <= k < |str| && k != i - 1 && k != i ==> r[k] == str[k])
      && eff.written == Some(r) && eff.requested == None
      && w1.text.caret == i + 1 && w1.helper == w.helper
  {
    RemoverSwapAtFirstDiff(cfg, w.text.recentValue, str, c);
    FirstDiffFacts(w.text.recentValue, str);
    SwapSpaceExchanges(str, i);
    SwapSpacePermutes(str, i);
  }

  /** An uncontrolled input shows exactly the non-empty text handed to `onChange`. */
  lemma UncontrolledShowsChange(cfg: Config, w: WidgetState, str: string, c: nat)
    requires cfg.value.None? && |str| > 0
    ensures var (w1, eff) := ChangeStep(cfg, w, str, c);
      RenderedValue(cfg.value, w1.text.value, cfg.defaultValue) == eff.changed
  {
    var (w1, eff) := ChangeStep(cfg, w, str, c);
    if eff.written.Some? {
      RemoverSwapAtFirstDiff(cfg, w.text.recentValue, str, c);
      var i := RemoverSwap(cfg, w.text.recentValue, str, c).value;
      SwapSpaceExchanges(str, i);
    }
  }

  /** As written, clearing an uncontrolled input hands "" to `onChange`,
      but the input then shows the default value again: with a non-empty
      default the field cannot be cleared. */
  lemma ClearedFieldShowsDefault(cfg: Config, w: WidgetState, c: nat)
    requires cfg.value.None?
    ensures var (w1, eff) := ChangeStep(cfg, w, "", c);
      && eff.changed == ""
      && RenderedValue(cfg.value, w1.text.value, cfg.defaultValue) == cfg.defaultValue
      && (cfg.defaultValue != "" ==> RenderedValue(cfg.value, w1.text.value, cfg.defaultValue) != eff.changed)
  {
  }

  /** With the state value taken whenever it is present, an uncontrolled
      input shows exactly the text handed to `onChange`, the empty text
      included. */
  lemma UncontrolledShowsEveryChange(cfg: Config, w: WidgetState, str: string, c: nat)
    requires cfg.value.None?
    ensures var (w1, eff) := ChangeStep(cfg, w, str, c);
      RenderedValueByPresence(cfg.value, w1.text.value, cfg.defaultValue) == eff.changed
  {
  }

  /** Choosing option `idx` hides the list and arms the space remover; the
      text becomes the previous text with the slug replaced by the option and
      a space, the caret lands after that space, and the input element holds
      exactly what is handed to `onChange`: the spliced text, unless an armed
      remover rewrites it. */
  lemma SelectionSplicesOption(cfg: Config, w: WidgetState, idx: int, domCaret: nat)
    requires 0 <= idx < |w.helper.options|
    ensures var (w1, eff) := SelectStep(cfg, w, idx, domCaret);
      var ms, ml, option := w.helper.matchStart, w.helper.matchLength, w.helper.options[idx];
      var text := w.text.recentValue;
      && !w1.helper.visible && w1.helper.selection == 0 && w1.text.armed
      && (0 <= ms && 0 <= ml && ms + ml <= |text| ==>
            && w1.text.recentValue == text[..ms] + option + " " + text[ms + ml..]
            && w1.text.caret == ms + |option| + 1)
      && eff.written == Some(eff.changed)
      && (!w.text.armed ==> eff.changed == w1.text.recentValue)
  {
    var h := w.helper;
    var text := w.text.recentValue;
    ChangeOutcomes(cfg, w, InsertOption(text, h.matchStart, h.matchLength, h.options[idx]), domCaret);
    if 0 <= h.matchStart && 0 <= h.matchLength && h.matchStart + h.matchLength <= |text| {
      InsertOptionSplices(text, h.matchStart, h.matchLength, h.options[idx]);
    }
  }

  /** `handleKeyDown`: a key is forwarded, and changes nothing, exactly when
      the list is hidden or the key is not one the list handles; Escape hides
      the list and resets the selection; the arrows move the selection within
      the same options; Enter and Return choose the selected option. */
  lemma KeyOutcomes(cfg: Config, w: WidgetState, keyCode: int, domCaret: nat)
    requires SelectionInRange(w.helper)
    ensures var o := KeyStep(cfg, w, keyCode, domCaret);
      && SelectionInRange(o.state.helper)
      && (o.forwarded <==> !w.helper.visible || keyCode !in {KEY_ESCAPE, KEY_UP, KEY_DOWN, KEY_ENTER, KEY_RETURN})
      && (o.forwarded ==> o.state == w && o.effects == None)
      && (w.helper.visible && keyCode == KEY_ESCAPE ==>
            o.state == w.(helper := w.helper.(visible := false, selection := 0)))
      && (w.helper.visible && (keyCode == KEY_UP || keyCode == KEY_DOWN) ==>
            && o.state.text == w.text && o.state.helper.visible
            && o.state.helper.options == w.helper.options
            && 0 <= o.state.helper.selection < |w.helper.options|)
      && (w.helper.visible && (keyCode == KEY_ENTER || keyCode == KEY_RETURN) ==>
            && o.effects.Some? && !o.state.helper.visible && o.state.text.armed
            && (o.state, o.effects.value) == SelectStep(cfg, w, w.helper.selection, domCaret))
  {
    var a := ActionOf(w.helper.visible, keyCode);
    if a == MoveUp || a == MoveDown {
      UpDownInverse(w.helper);
    }
  }

  // ---------------------------------------------------------------------
  // The space-remover scenario: candidates "aa" and "ab", the remover ";",
  // the text "@aa " followed by "@aa ;" with the caret at the end.

  function RemoverConfig(): Config
  {
    Defaults(["aa", "ab"]).(spaceRemovers := [";"])
  }

  /** The remover's inner match: "@a" before the caret at 2 has a slug. */
  lemma RemoverInnerMatch()
    ensures MatchSpec(RemoverConfig(), ToLower(Substring("@aa ;", 0, 2)), 2, ["aa", "ab"]).Some?
  {
    var cfg := RemoverConfig();
    var str := "@a";
    assert Substring("@aa ;", 0, 2) == str;
    assert ToLower(str) == str;
    assert TriggerIdx(cfg, 0) == 0 && TriggerIdx(cfg, 1) == 1;
    assert Substr(str, 0, 1) == "@" && Substr(str, 1, 1) == "a";
    assert Hit(cfg, str, 0) && !Hit(cfg, str, 1);
    assert Substring(str, 1, 2) == "a" && DefaultAccepts("a");
    assert RunAccepted(cfg, str, 1, 2);
    assert NearestTrigger(cfg, str, 2, 0);
    StartAtNearest(cfg, str, 2, 0);
  }

  /** Right after an option was chosen (the remover armed), typing ";"
      after "@aa " gives "@aa; " with the caret after the space. */
  lemma ArmedRemoverMovesSpace()
    ensures var w := WidgetState(HelperState(false, 0, [], 0, 0), TextState(4, Some("@aa "), "@aa ", true));
      var (w1, eff) := ChangeStep(RemoverConfig(), w, "@aa ;", 5);
      eff == Effects("@aa; ", None, Some("@aa; ")) && w1.text.caret == 5
  {
    var previous, str := "@aa ", "@aa ;";
    assert IsFirstDifference(previous, str, 4);
    FirstDiffIs(previous, str, 4);
    RemoverSwapAtFirstDiff(RemoverConfig(), previous, str, 5);
    assert SwapCandidate([";"], str, 4) by {
      assert [str[4]] == ";" && !IsRemover([";"], str[2]);
    }
    RemoverInnerMatch();
    SwapSpaceUnfolds(str, 4);
    assert SwapSpace(str, 4) == "@aa; ";
  }

  /** On a freshly mounted component the remover is not armed: the same two
      changes leave "@aa ;" as typed. */
  lemma FreshRemoverKeepsSpace()
    ensures var w0 := WidgetState(HelperState(false, 0, [], 0, 0), TextState(0, None, "", false));
      var (w1, e1) := ChangeStep(RemoverConfig(), w0, "@aa ", 4);
      var (w2, e2) := ChangeStep(RemoverConfig(), w1, "@aa ;", 5);
      e2.changed == "@aa ;" && e2.written == None && !w2.text.armed
  {
  }
}
