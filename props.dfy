/// The widget's configuration: the props of AutocompleteTextField that the
/// matching, selection and text-mutation logic reads.
module Props {
  import opened JsText

  /** The props the core reads. `accepts` is the compiled `regex` prop:
      `accepts(s)` is the truthiness of `s.match(new RegExp(regex))`.
      `value` is the controlled value (`None` for undefined or null). */
  datatype Config = Config(
    trigger: string,
    accepts: string -> bool,
    matchAny: bool,
    options: seq<string>,
    maxOptions: int,
    requestOnlyIfNoOptions: bool,
    spaceRemovers: seq<string>,
    value: Option<string>,
    defaultValue: string)

  /** A code unit of the default class `[A-Za-z0-9\-_]`. */
  predicate IsSlugChar(c: char)
  {
    ('A' <= c <= 'Z') || ('a' <= c <= 'z') || ('0' <= c <= '9') || c == '-' || c == '_'
  }

  /** The default pattern `^[A-Za-z0-9\-_]+$`: a non-empty run of slug characters. */
  predicate DefaultAccepts(s: string)
  {
    |s| > 0 && forall k :: 0 <= k < |s| ==> IsSlugChar(s[k])
  }

  /** The default props (lines 37-54), with the given candidate list. */
  function Defaults(options: seq<string>): (cfg: Config)
    ensures cfg.trigger == "@" && !cfg.accepts(cfg.trigger)
    ensures !cfg.accepts("")
    ensures forall s :: cfg.accepts(s) <==> DefaultAccepts(s)
    ensures cfg.options == options && cfg.maxOptions == 6
  {
    assert "@"[0] == '@';
    Config("@", DefaultAccepts, false, options, 6, true, [",", ".", "!", "?"], None, "")
  }

  /** A `truthy` controlled value: a present, non-empty string. */
  predicate IsControlled(cfg: Config)
  {
    cfg.value.Some? && cfg.value.value != ""
  }
}
