/**
  The plug command mapping (`TapoController._change_plug_status` in app/app.py).
  The source picks the plug method by name: the status is mapped to "on" or "off",
  capitalised, prefixed with "turn" and looked up on the plug object. The plug library
  and the network call it makes are not modelled; only the method the lookup selects is.
 */
module Plug {
  import opened Wrappers

  /** The two power methods of the plug object. */
  datatype Method = TurnOn | TurnOff

  /** The string table `{True: 'on', False: 'off'}`. */
  function StatusString(status: bool): (s: string) {
    if status then "on" else "off"
  }

  function Upper(c: char): (u: char) {
    if 'a' <= c <= 'z' then (c as int - 32) as char else c
  }

  function Lower(c: char): (l: char) {
    if 'A' <= c <= 'Z' then (c as int + 32) as char else c
  }

  /** `str.capitalize` on ASCII text: first character upper case, the rest lower case. */
  function Capitalize(s: string): (r: string) {
    if s == [] then [] else [Upper(s[0])] + seq(|s| - 1, i requires 0 <= i < |s| - 1 => Lower(s[i + 1]))
  }

  /** The attribute name built as `'turn' + status_string.capitalize()`. */
  function MethodName(status: bool): (name: string) {
    "turn" + Capitalize(StatusString(status))
  }

  /** `getattr` on the plug object: only its two power methods are modelled; any other name is absent. */
  function Lookup(name: string): (m: Option<Method>) {
    if name == "turnOn" then Some(TurnOn)
    else if name == "turnOff" then Some(TurnOff)
    else None
  }

  /** The names that the mapping builds for True and False. */
  lemma MethodNames()
    ensures MethodName(true) == "turnOn"
    ensures MethodName(false) == "turnOff"
  {
    assert Capitalize("on") == "On";
    assert Capitalize("off") == "Off";
  }

  /**
    `_change_plug_status`: the name lookup always succeeds, True selects `turnOn`
    and False selects `turnOff`.
   */
  function ChangePlugStatus(status: bool): (m: Method)
    ensures status ==> m == TurnOn
    ensures !status ==> m == TurnOff
  {
    MethodNames();
    Lookup(MethodName(status)).value
  }
}
