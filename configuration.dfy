/**
 * Option lookup of AppLogic/Config/Configuration.cs over the two option
 * collections, Local and Roaming, given as maps.  Loading the configuration
 * files is not modelled.
 */
module Configuration {
  import opened Wrappers
  import opened ConfigParsing
  import opened MachineInts

  type Options = map<string, string>

  /** TryGetOption: Local is searched first, then Roaming. */
  function TryGetOption(local: Options, roaming: Options, name: string): (r: Option<string>)
    ensures r.Some? <==> name in local || name in roaming
    ensures r.Some? && name in local ==> r.value == local[name]
  {
    if name in local then Some(local[name])
    else if name in roaming then Some(roaming[name])
    else None
  }

  /** The lookup is that of the merged map in which Local entries override Roaming ones. */
  lemma TryGetOptionIsMergedLookup(local: Options, roaming: Options, name: string)
    ensures TryGetOption(local, roaming, name) == if name in roaming + local then Some((roaming + local)[name]) else None
  {
  }

  /** GetOption(name, string): the value found, else the default. */
  function GetOptionString(local: Options, roaming: Options, name: string, defaultValue: string): (r: string)
    ensures name !in local && name !in roaming ==> r == defaultValue
    ensures name in local ==> r == local[name]
    ensures name !in local && name in roaming ==> r == roaming[name]
  {
    var found := TryGetOption(local, roaming, name);
    if found.Some? then found.value else defaultValue
  }

  /** GetOption(name, bool): the value found, if TryParseBool accepts it, else the default. */
  function GetOptionBool(local: Options, roaming: Options, name: string, defaultValue: bool): (r: bool)
    ensures TryGetOption(local, roaming, name).None? ==> r == defaultValue
    ensures TryGetOption(local, roaming, name).Some? ==>
              var p := TryParseBool(TryGetOption(local, roaming, name).value);
              r == if p.success then p.value else defaultValue
  {
    var found := TryGetOption(local, roaming, name);
    if found.Some? then
      var p := TryParseBool(found.value);
      if p.success then p.value else defaultValue
    else defaultValue
  }

  /** GetOption(name, int): the value found, if int.TryParse accepts it, else the default. */
  function GetOptionInt(local: Options, roaming: Options, name: string, defaultValue: int): (r: int)
    ensures TryGetOption(local, roaming, name).None? ==> r == defaultValue
    ensures TryGetOption(local, roaming, name).Some? ==>
              var p := IntTryParse(TryGetOption(local, roaming, name).value);
              r == if p.success then p.value else defaultValue
  {
    var found := TryGetOption(local, roaming, name);
    if found.Some? then
      var p := IntTryParse(found.value);
      if p.success then p.value else defaultValue
    else defaultValue
  }

  /** Local shadows Roaming even when Local's value does not parse: the default wins, not Roaming's value. */
  lemma UnparsableLocalDoesNotFallBack(local: Options, roaming: Options, name: string, boolDefault: bool, intDefault: int)
    requires name in local && name in roaming
    requires !TryParseBool(local[name]).success && !IntTryParse(local[name]).success
    ensures GetOptionBool(local, roaming, name, boolDefault) == boolDefault
    ensures GetOptionInt(local, roaming, name, intDefault) == intDefault
  {
  }

  /** Dropping Roaming changes nothing for a name that Local has. */
  lemma LocalWins(local: Options, roaming: Options, name: string)
    requires name in local
    ensures TryGetOption(local, roaming, name) == TryGetOption(local, map[], name)
    ensures GetOptionBool(local, roaming, name, false) == GetOptionBool(local, map[], name, false)
    ensures GetOptionInt(local, roaming, name, 0) == GetOptionInt(local, map[], name, 0)
  {
  }

  /** A bool written as ToString() prints it reads back exactly. */
  lemma BoolOptionRoundTrip(local: Options, roaming: Options, name: string, b: bool)
    ensures GetOptionBool(local[name := if b then "True" else "False"], roaming, name, !b) == b
  {
    var text := if b then "True" else "False";
    BoolRoundTrip(b, "", "");
    assert "" + text + "" == text;
    assert TryGetOption(local[name := text], roaming, name) == Some(text);
  }

  /** An int written as ToString() prints it reads back exactly. */
  lemma IntOptionRoundTrip(local: Options, roaming: Options, name: string, n: int)
    requires Int32Min <= n <= Int32Max
    ensures GetOptionInt(local[name := DecimalString(n)], roaming, name, n + 1) == n
  {
    var text := DecimalString(n);
    IntTryParseRoundTrip(n, "", "");
    assert "" + text + "" == text;
    assert TryGetOption(local[name := text], roaming, name) == Some(text);
  }
}
