/// The component AutocompleteTextField: its state, its instance fields
/// `recentValue` and `enableSpaceRemovers`, and the handlers that change
/// them. Each handler is specified by a function from the state before to
/// the state after (and what it hands to the outside world); the class's
/// methods are proved to compute exactly that.
module Widget {
  import opened JsText
  import opened Props
  import opened Matcher
  import opened Selection
  import opened TextMutators

  /** The text side of the component: the caret kept in the state (undefined
      until the first change, taken as 0), the state's `value`, and the
      instance fields `recentValue` and `enableSpaceRemovers` (`armed`). */
  datatype TextState = TextState(caret: int, value: Option<string>, recentValue: string, armed: bool)

  datatype WidgetState = WidgetState(helper: HelperState, text: TextState)

  /** What a handler hands to the outside world: the argument of `onChange`,
      the argument of `onRequestOptions` if it is called, and the text
      written straight into the input element, if any. */
  datatype Effects = Effects(changed: string, requested: Option<string>, written: Option<string>)

  /** The outcome of a key press: the new state, whether the event went on
      to the `onKeyDown` prop, and the effects of a choice made by the key. */
  datatype KeyOutcome = KeyOutcome(state: WidgetState, forwarded: bool, effects: Option<Effects>)

  /** The slug `updateHelper` hands to `onRequestOptions`, if any. */
  function RequestOf(d: Decision): Option<string>
  {
    if d.Hide? then d.request else None
  }

  /** The rewrite condition of the space remover at index `i`. */
  ghost predicate SwapAt(cfg: Config, str: string, c: int, i: int)
  {
    && SwapCandidate(cfg.spaceRemovers, str, i)
    && MatchSpec(cfg, ToLower(Substring(str, 0, i - 2)), c - 3, cfg.options).Some?
  }

  /** The remover's loop from index `i` on. */
  ghost function RemoverScan(cfg: Config, previous: string, str: string, c: int, i: nat): Option<nat>
    decreases MaxLength(previous, str) - i
  {
    if i >= MaxLength(previous, str) then None
    else if !Differs(previous, str, i) then RemoverScan(cfg, previous, str, c, i + 1)
    else if SwapAt(cfg, str, c, i) then Some(i)
    else None
  }

  /** The index at which the space remover rewrites the new text `str`
      (previous text `previous`, caret `c`), if it does. */
  ghost function RemoverSwap(cfg: Config, previous: string, str: string, c: int): Option<nat>
  {
    RemoverScan(cfg, previous, str, c, 0)
  }

  /** The remover's loop stops at the first index at or after `i` where the
      texts differ, and rewrites exactly when the condition holds there. */
  lemma {:induction false} RemoverScanFinds(cfg: Config, previous: string, str: string, c: int, i: nat)
    ensures RemoverScan(cfg, previous, str, c, i)
      == match FirstDiffFrom(previous, str, i)
         case None => None
         case Some(j) => if SwapAt(cfg, str, c, j) then Some(j) else None
    decreases MaxLength(previous, str) - i
  {
    if i < MaxLength(previous, str) && !Differs(previous, str, i) {
      RemoverScanFinds(cfg, previous, str, c, i + 1);
    }
  }

  /** The space remover rewrites at the first difference between the
      previous and the new text, when the condition holds there, and
      nowhere else. */
  lemma RemoverSwapAtFirstDiff(cfg: Config, previous: string, str: string, c: int)
    ensures RemoverSwap(cfg, previous, str, c)
      == match FirstDiff(previous, str)
         case None => None
         case Some(i) => if SwapAt(cfg, str, c, i) then Some(i) else None
  {
    RemoverScanFinds(cfg, previous, str, c, 0);
  }

  /** `updateHelper(str, c, options)` followed by `onChange(str)`. */
  ghost function UpdateStep(cfg: Config, w: WidgetState, str: string, c: int): (WidgetState, Effects)
  {
    var d := Decide(MatchSpec(cfg, ToLower(str), c, cfg.options), cfg.requestOnlyIfNoOptions, str);
    (w.(helper := AfterDecision(w.helper, d)), Effects(str, RequestOf(d), None))
  }

  /** `handleChange` for the new text `str` with the caret at `c`. */
  ghost function ChangeStep(cfg: Config, w: WidgetState, str: string, c: nat): (WidgetState, Effects)
  {
    var helper := if |str| == 0 then w.helper.(visible := false) else w.helper;
    var text := w.text.(caret := c, value := Some(str), recentValue := str);
    if |str| == 0 || c == 0 then
      (WidgetState(helper, text), Effects(str, None, None))
    else if w.text.armed && |cfg.spaceRemovers| > 0 && |str| > 2 then
      match RemoverSwap(cfg, w.text.recentValue, str, c)
      case Some(i) =>
        var newValue := SwapSpace(str, i);
        (WidgetState(helper, text.(caret := i + 1, value := if IsControlled(cfg) then Some(str) else Some(newValue))),
         Effects(newValue, None, Some(newValue)))
      case None =>
        UpdateStep(cfg, WidgetState(helper, text.(armed := false)), str, c)
    else
      UpdateStep(cfg, WidgetState(helper, text), str, c)
  }

  /** `handleSelection(idx)`, with `domCaret` the caret the input element
      reports once the spliced text is in it. */
  ghost function SelectStep(cfg: Config, w: WidgetState, idx: int, domCaret: nat): (WidgetState, Effects)
    requires 0 <= idx < |w.helper.options|
  {
    var h := w.helper;
    var option := h.options[idx];
    var text := InsertOption(w.text.recentValue, h.matchStart, h.matchLength, option);
    var (w1, eff) := ChangeStep(cfg, w, text, domCaret);
    (WidgetState(Reset(w1.helper), w1.text.(caret := CaretAfterInsert(w.text.recentValue, h.matchStart, option), armed := true)),
     eff.(written := if eff.written.Some? then eff.written else Some(text)))
  }

  /** `handleKeyDown` for the key `keyCode`. */
  ghost function KeyStep(cfg: Config, w: WidgetState, keyCode: int, domCaret: nat): KeyOutcome
    requires SelectionInRange(w.helper)
  {
    match ActionOf(w.helper.visible, keyCode)
    case Forward => KeyOutcome(w, true, None)
    case Escape => KeyOutcome(w.(helper := Reset(w.helper)), false, None)
    case MoveUp => KeyOutcome(w.(helper := Up(w.helper)), false, None)
    case MoveDown => KeyOutcome(w.(helper := Down(w.helper)), false, None)
    case Choose =>
      var (w1, eff) := SelectStep(cfg, w, w.helper.selection, domCaret);
      KeyOutcome(w1, false, Some(eff))
  }

  /** The `value` given to the input element by `render`: the controlled
      value when present (even empty), else a non-empty state value, else
      the default value. */
  function RenderedValue(controlled: Option<string>, stateValue: Option<string>, defaultValue: string): (r: string)
    ensures controlled.Some? ==> r == controlled.value
    ensures controlled.None? && stateValue.Some? && stateValue.value != "" ==> r == stateValue.value
    ensures controlled.None? && (stateValue.None? || stateValue.value == "") ==> r == defaultValue
  {
    if controlled.Some? then controlled.value
    else if stateValue.Some? && stateValue.value != "" then stateValue.value
    else defaultValue
  }

  /** The precedence evidently intended: the state value whenever the
      component has one, even empty, as for the controlled value. */
  function RenderedValueByPresence(controlled: Option<string>, stateValue: Option<string>, defaultValue: string): string
  {
    if controlled.Some? then controlled.value
    else if stateValue.Some? then stateValue.value
    else defaultValue
  }

  /** The space remover's scan of `handleChange`: the first index where the
      texts differ, and the rewrite condition checked there. */
  method RemoverIndex(cfg: Config, previous: string, str: string, c: int) returns (r: Option<nat>)
    ensures r == RemoverSwap(cfg, previous, str, c)
  {
    var n := if |previous| > |str| then |previous| else |str|;
    var i := 0;
    while i < n
      invariant 0 <= i <= n
      invariant RemoverScan(cfg, previous, str, c, i) == RemoverSwap(cfg, previous, str, c)
    {
      if i >= |previous| || i >= |str| || previous[i] != str[i] {
        if SwapCandidate(cfg.spaceRemovers, str, i) {
          var found := GetMatch(cfg, ToLower(Substring(str, 0, i - 2)), c - 3, cfg.options);
          if found.Some? {
            return Some(i);
          }
        }
        return None;
      }
      i := i + 1;
    }
    return None;
  }

  class AutocompleteTextField {
    var props: Config
    var helperVisible: bool
    var selection: int
    var options: seq<string>
    var matchStart: int
    var matchLength: int
    var caret: int
    var value: Option<string>
    var recentValue: string
    var enableSpaceRemovers: bool

    ghost function Helper(): HelperState
      reads this
    {
      HelperState(helperVisible, selection, options, matchStart, matchLength)
    }

    ghost function Text(): TextState
      reads this
    {
      TextState(caret, value, recentValue, enableSpaceRemovers)
    }

    ghost function State(): WidgetState
      reads this
    {
      WidgetState(Helper(), Text())
    }

    /** The component invariant: a visible list has its selection in range. */
    ghost predicate Valid()
      reads this
    {
      SelectionInRange(Helper())
    }

    constructor (p: Config)
      ensures Valid() && props == p
      ensures State() == WidgetState(HelperState(false, 0, [], 0, 0), TextState(0, None, p.defaultValue, false))
    {
      props := p;
      helperVisible := false;
      selection := 0;
      options := [];
      matchStart := 0;
      matchLength := 0;
      caret := 0;
      value := None;
      recentValue := p.defaultValue;
      enableSpaceRemovers := false;
    }

    /** The rows of the rendered list: none while it is hidden. */
    function Rows(): (rows: seq<string>)
      reads this
      ensures !helperVisible ==> rows == []
      ensures |rows| <= |options| && rows == options[..|rows|]
    {
      RenderedRows(options, props.maxOptions);
      if helperVisible then RenderedOptions(options, props.maxOptions) else []
    }

    method ResetHelper()
      modifies this
      ensures Helper() == Reset(old(Helper()))
      ensures props == old(props) && Text() == old(Text())
    {
      helperVisible := false;
      selection := 0;
    }

    method HandleResize()
      requires Valid()
      modifies this
      ensures Valid()
      ensures Helper() == Resize(old(Helper()))
      ensures props == old(props) && Text() == old(Text())
    {
      helperVisible := false;
    }

    method UpdateHelper(str: string, c: int, opts: seq<string>) returns (request: Option<string>)
      requires Valid()
      modifies this
      ensures Valid()
      ensures var d := Decide(MatchSpec(props, ToLower(str), c, opts), props.requestOnlyIfNoOptions, str);
        Helper() == AfterDecision(old(Helper()), d) && request == RequestOf(d)
      ensures props == old(props) && Text() == old(Text())
    {
      var found := GetMatch(props, ToLower(str), c, opts);
      request := None;
      if found.Some? {
        var m := found.value;
        if |m.options| > 1 || (|m.options| == 1 && |m.options[0]| != m.matchLength) {
          ShowHelper(m);
        } else {
          if !props.requestOnlyIfNoOptions || |m.options| == 0 {
            request := Some(Substr(str, m.matchStart, m.matchLength));
          }
          ResetHelper();
        }
      } else {
        ResetHelper();
      }
    }

    /** The show branch of `updateHelper`, with the selection corrected. */
    method ShowHelper(m: Match)
      requires ShowsList(m)
      modifies this
      ensures Valid()
      ensures Helper() == ShowList(old(Helper()), m)
      ensures props == old(props) && Text() == old(Text())
    {
      helperVisible := true;
      options := m.options;
      matchStart := m.matchStart;
      matchLength := m.matchLength;
      if !(0 <= selection < |options|) {
        selection := 0;
      }
    }

    method HandleChange(str: string, c: nat) returns (eff: Effects)
      requires Valid()
      modifies this
      ensures Valid() && props == old(props)
      ensures (State(), eff) == ChangeStep(props, old(State()), str, c)
    {
      var previous := recentValue;
      if |str| == 0 {
        helperVisible := false;
      }
      recentValue := str;
      caret := c;
      value := Some(str);
      if |str| == 0 || c == 0 {
        return Effects(str, None, None);
      }
      if enableSpaceRemovers && |props.spaceRemovers| > 0 && |str| > 2 {
        var swap := RemoverIndex(props, previous, str, c);
        if swap.Some? {
          var newValue := SwapSpace(str, swap.value);
          caret := swap.value + 1;
          if !IsControlled(props) {
            value := Some(newValue);
          }
          return Effects(newValue, None, Some(newValue));
        }
        enableSpaceRemovers := false;
      }
      var request := UpdateHelper(str, c, props.options);
      if !IsControlled(props) {
        value := Some(str);
      }
      return Effects(str, request, None);
    }

    method HandleSelection(idx: int, domCaret: nat) returns (eff: Effects)
      requires Valid() && 0 <= idx < |options|
      modifies this
      ensures Valid() && props == old(props)
      ensures (State(), eff) == SelectStep(props, old(State()), idx, domCaret)
    {
      var slug := options[idx];
      var text := InsertOption(recentValue, matchStart, matchLength, slug);
      var newCaret := CaretAfterInsert(recentValue, matchStart, slug);
      eff := HandleChange(text, domCaret);
      if eff.written.None? {
        eff := eff.(written := Some(text));
      }
      ResetHelper();
      caret := newCaret;
      enableSpaceRemovers := true;
    }

    method HandleKeyDown(keyCode: int, domCaret: nat) returns (forwarded: bool, eff: Option<Effects>)
      requires Valid()
      modifies this
      ensures Valid() && props == old(props)
      ensures KeyOutcome(State(), forwarded, eff) == KeyStep(props, old(State()), keyCode, domCaret)
    {
      forwarded, eff := false, None;
      if helperVisible {
        if keyCode == KEY_ESCAPE {
          ResetHelper();
        } else if keyCode == KEY_UP {
          selection := (|options| + selection - 1) % |options|;
        } else if keyCode == KEY_DOWN {
          selection := (selection + 1) % |options|;
        } else if keyCode == KEY_ENTER || keyCode == KEY_RETURN {
          var e := HandleSelection(selection, domCaret);
          eff := Some(e);
        } else {
          forwarded := true;
        }
      } else {
        forwarded := true;
      }
    }

    method HandleMouseEnter(idx: int)
      requires Valid() && 0 <= idx < |Rows()|
      modifies this
      ensures Valid()
      ensures Helper() == Hover(old(Helper()), idx)
      ensures props == old(props) && Text() == old(Text())
    {
      selection := idx;
    }

    method HandleClick(idx: int, domCaret: nat) returns (eff: Effects)
      requires Valid() && 0 <= idx < |Rows()|
      modifies this
      ensures Valid() && props == old(props)
      ensures (State(), eff) == SelectStep(props, old(State()), idx, domCaret)
    {
      eff := HandleSelection(idx, domCaret);
    }

    method ReceiveProps(next: Config) returns (request: Option<string>)
      requires Valid()
      modifies this
      ensures Valid() && props == next
      ensures Text() == old(Text())
      ensures |next.options| != |old(props).options| ==>
        var d := Decide(MatchSpec(old(props), ToLower(recentValue), caret, next.options),
                        old(props).requestOnlyIfNoOptions, recentValue);
        Helper() == AfterDecision(old(Helper()), d) && request == RequestOf(d)
      ensures |next.options| == |old(props).options| ==> Helper() == old(Helper()) && request == None
    {
      request := None;
      if |next.options| != |props.options| {
        request := UpdateHelper(recentValue, caret, next.options);
      }
      props := next;
    }
  }
}
