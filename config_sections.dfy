/**
 * The configuration-section handlers of AppLogic/Config/HotkeyConfigSection.cs
 * and AppLogic/Config/OptionConfigSection.cs: each walks the section's child
 * nodes, keeps those with its element name, reads their attributes, and
 * throws on the first malformed node.  A thrown exception is a `Failure`.
 */
module ConfigSections {
  import opened Wrappers
  import opened Faults
  import opened MachineInts
  import opened TextTransforms
  import opened ConfigParsing
  import opened Hotkeys

  /** The part of System.Xml.XmlNode the handlers read. */
  datatype XmlNode = XmlNode(name: string, attributes: map<string, string>, innerText: string, outerXml: string)

  /** `node.Attributes[key]?.Value`. */
  function Attr(node: XmlNode, key: string): (r: Option<string>)
    ensures r.Some? <==> key in node.attributes
  {
    if key in node.attributes then Some(node.attributes[key]) else None
  }

  /** String.IsNullOrWhiteSpace. */
  predicate IsNullOrWhiteSpace(s: Option<string>)
  {
    s.None? || IsBlank(s.value)
  }

  /** The children with the given element name, in document order. */
  function Selected(children: seq<XmlNode>, tag: string): (r: seq<XmlNode>)
    ensures |r| <= |children|
    ensures forall k :: 0 <= k < |r| ==> r[k].name == tag && r[k] in children
    ensures forall k :: 0 <= k < |children| && children[k].name == tag ==> children[k] in r
    decreases |children|
  {
    if |children| == 0 then []
    else
      var prev := Selected(children[..|children| - 1], tag);
      var last := children[|children| - 1];
      assert forall k :: 0 <= k < |children| - 1 ==> children[..|children| - 1][k] == children[k];
      if last.name == tag then prev + [last] else prev
  }

  // ---------------------------------------------------------------------------
  // <hotkey> elements
  // ---------------------------------------------------------------------------

  /** An optional key code: absent or blank is none; otherwise it must parse, and is cast to `uint`. */
  function ReadCode(text: Option<string>, allowChar: bool, formatError: Exc): (r: Result<Option<u32>, Exc>)
    ensures r.Success? ==> (r.value.None? <==> IsNullOrWhiteSpace(text))
    ensures r.Failure? ==> !IsNullOrWhiteSpace(text)
  {
    if IsNullOrWhiteSpace(text) then Success(None)
    else
      var p := if allowChar then TryParseHexOrDecOrChar(text.value) else TryParseHexOrDec(text.value);
      if p.Failure? then Failure(p.error)
      else if !p.value.success then Failure(formatError)
      else Success(Some(ToUInt(p.value.value)))
  }

  /** An optional flag: absent is false; present, even blank, it must parse as a bool. */
  function ReadFlag(text: Option<string>, formatError: Exc): (r: Result<bool, Exc>)
    ensures text.None? ==> r == Success(false)
    ensures text.Some? ==> (r.Success? <==> TryParseBool(text.value).success)
    ensures r.Failure? ==> r.error == formatError
  {
    if text.None? then Success(false)
    else
      var p := TryParseBool(text.value);
      if p.success then Success(p.value) else Failure(formatError)
  }

  /**
   * One <hotkey> element: a name that is not blank, then mods, vkey,
   * isScript and hasSeparator in that order; the first malformed one is a
   * FormatException carrying the element's XML, while an exception thrown
   * by the number conversion itself passes through.
   */
  function ReadHotkey(node: XmlNode): (r: Result<Hotkey, Exc>)
    ensures IsNullOrWhiteSpace(Attr(node, "name")) ==> r == Failure(Leaf(Format, node.outerXml))
    ensures r.Success? ==>
              Attr(node, "name") == Some(r.value.name) && !IsBlank(r.value.name) &&
              r.value.menuItem == Attr(node, "menuItem") &&
              r.value.data == Some(node.innerText) &&
              (r.value.mods.Some? <==> !IsNullOrWhiteSpace(Attr(node, "mods"))) &&
              (r.value.vkey.Some? <==> !IsNullOrWhiteSpace(Attr(node, "vkey")))
    ensures r.Failure? ==> r.error == Leaf(Format, node.outerXml) ||
                           (r.error.Leaf? && r.error.kind in {Argument, Overflow})
  {
    var formatError := Leaf(Format, node.outerXml);
    var name := Attr(node, "name");
    if IsNullOrWhiteSpace(name) then Failure(formatError)
    else
      var mods := ReadCode(Attr(node, "mods"), false, formatError);
      if mods.Failure? then Failure(mods.error)
      else
        var vkey := ReadCode(Attr(node, "vkey"), true, formatError);
        if vkey.Failure? then Failure(vkey.error)
        else
          var isScript := ReadFlag(Attr(node, "isScript"), formatError);
          if isScript.Failure? then Failure(isScript.error)
          else
            var addSeparator := ReadFlag(Attr(node, "hasSeparator"), formatError);
            if addSeparator.Failure? then Failure(addSeparator.error)
            else Success(Hotkey(name.value, Attr(node, "menuItem"), mods.value, vkey.value,
                                isScript.value, addSeparator.value, Some(node.innerText)))
  }

  /** The hotkeys read from the selected elements, in order, or the first element's exception. */
  function ReadAll(nodes: seq<XmlNode>): (r: Result<seq<Hotkey>, Exc>)
    ensures r.Success? ==> |r.value| == |nodes|
    decreases |nodes|
  {
    if |nodes| == 0 then Success([])
    else
      var prev := ReadAll(nodes[..|nodes| - 1]);
      if prev.Failure? then prev
      else
        var h := ReadHotkey(nodes[|nodes| - 1]);
        if h.Failure? then Failure(h.error) else Success(prev.value + [h.value])
  }

  /** HotkeyConfigSection.Create: the loop over the <hotkey> children, adding to the collection. */
  method HotkeySectionCreate(children: seq<XmlNode>) returns (r: Result<seq<Hotkey>, Exc>)
    ensures r == ReadAll(Selected(children, "hotkey"))
  {
    var result: seq<Hotkey> := [];
    ghost var selected: seq<XmlNode> := [];
    for i := 0 to |children|
      invariant selected == Selected(children[..i], "hotkey")
      invariant ReadAll(selected) == Success(result)
    {
      var node := children[i];
      SelectedStep(children, i, "hotkey");
      if node.name == "hotkey" {
        var h := ReadHotkey(node);
        ReadAllStep(selected, node);
        selected := selected + [node];
        if h.Failure? {
          r := Failure(h.error);
          FailureSticks(children, i + 1, "hotkey");
          return;
        }
        result := result + [h.value];
      }
    }
    assert children[..|children|] == children;
    r := Success(result);
  }

  /** One more child: it is selected at the end iff it has the element name. */
  lemma SelectedStep(children: seq<XmlNode>, i: nat, tag: string)
    requires i < |children|
    ensures Selected(children[..i + 1], tag) ==
            Selected(children[..i], tag) + (if children[i].name == tag then [children[i]] else [])
  {
    assert children[..i + 1][..i] == children[..i];
  }

  /** One more selected element after a prefix that reads. */
  lemma ReadAllStep(nodes: seq<XmlNode>, node: XmlNode)
    ensures ReadAll(nodes + [node]) ==
            if ReadAll(nodes).Failure? then ReadAll(nodes)
            else if ReadHotkey(node).Failure? then Failure(ReadHotkey(node).error)
            else Success(ReadAll(nodes).value + [ReadHotkey(node).value])
  {
    assert (nodes + [node])[..|nodes|] == nodes;
  }

  lemma {:induction false} SelectedAppend(a: seq<XmlNode>, b: seq<XmlNode>, tag: string)
    ensures Selected(a + b, tag) == Selected(a, tag) + Selected(b, tag)
    decreases |b|
  {
    if |b| == 0 {
      assert a + b == a;
    } else {
      var ab := a + b;
      assert ab[..|ab| - 1] == a + b[..|b| - 1];
      assert ab[|ab| - 1] == b[|b| - 1];
      SelectedAppend(a, b[..|b| - 1], tag);
    }
  }

  lemma {:induction false} ReadAllFailedPrefix(a: seq<XmlNode>, b: seq<XmlNode>)
    requires ReadAll(a).Failure?
    ensures ReadAll(a + b) == ReadAll(a)
    decreases |b|
  {
    if |b| == 0 {
      assert a + b == a;
    } else {
      var ab := a + b;
      assert ab[..|ab| - 1] == a + b[..|b| - 1];
      ReadAllFailedPrefix(a, b[..|b| - 1]);
    }
  }

  /** Once a prefix of the children fails, the whole section fails with the same exception. */
  lemma FailureSticks(children: seq<XmlNode>, n: nat, tag: string)
    requires n <= |children|
    requires ReadAll(Selected(children[..n], tag)).Failure?
    ensures ReadAll(Selected(children, tag)) == ReadAll(Selected(children[..n], tag))
  {
    assert children == children[..n] + children[n..];
    SelectedAppend(children[..n], children[n..], tag);
    ReadAllFailedPrefix(Selected(children[..n], tag), Selected(children[n..], tag));
  }

  /** The section reads iff every element reads, and then holds exactly the elements' hotkeys, in order. */
  lemma {:induction false} ReadAllSucceeds(nodes: seq<XmlNode>)
    ensures ReadAll(nodes).Success? <==> forall k :: 0 <= k < |nodes| ==> ReadHotkey(nodes[k]).Success?
    ensures ReadAll(nodes).Success? ==>
              forall k :: 0 <= k < |nodes| ==> ReadAll(nodes).value[k] == ReadHotkey(nodes[k]).value
    decreases |nodes|
  {
    if |nodes| > 0 {
      var init := nodes[..|nodes| - 1];
      ReadAllSucceeds(init);
      assert forall k :: 0 <= k < |init| ==> init[k] == nodes[k];
    }
  }

  /** The exception of a failing section is that of its first malformed element. */
  lemma {:induction false} ReadAllFirstFailure(nodes: seq<XmlNode>, k: nat)
    requires k < |nodes| && ReadHotkey(nodes[k]).Failure?
    requires forall j :: 0 <= j < k ==> ReadHotkey(nodes[j]).Success?
    ensures ReadAll(nodes) == Failure(ReadHotkey(nodes[k]).error)
    decreases |nodes|
  {
    var init := nodes[..|nodes| - 1];
    if k < |nodes| - 1 {
      assert init[k] == nodes[k];
      assert forall j :: 0 <= j < k ==> init[j] == nodes[j];
      ReadAllFirstFailure(init, k);
    } else {
      assert forall j :: 0 <= j < |init| ==> init[j] == nodes[j];
      ReadAllSucceeds(init);
    }
  }

  function BoolText(b: bool): string
  {
    if b then "True" else "False"
  }

  /** A 32-bit code as `0x` and upper-case hex digits. */
  function HexText(c: u32): string
  {
    "0x" + Digits(c as nat, 16)
  }

  /** The element that writes a hotkey back: codes in hex, flags as "True"/"False". */
  function HotkeyElement(h: Hotkey, outerXml: string): XmlNode
  {
    var attrs := map["name" := h.name, "isScript" := BoolText(h.isScript), "hasSeparator" := BoolText(h.addSeparator)];
    var attrs := if h.menuItem.Some? then attrs["menuItem" := h.menuItem.value] else attrs;
    var attrs := if h.mods.Some? then attrs["mods" := HexText(h.mods.value)] else attrs;
    var attrs := if h.vkey.Some? then attrs["vkey" := HexText(h.vkey.value)] else attrs;
    XmlNode("hotkey", attrs, if h.data.Some? then h.data.value else "", outerXml)
  }

  /** Any 32-bit code written in hex reads back as itself, through the signed parse and the `uint` cast. */
  lemma CodeRoundTrip(c: u32, allowChar: bool, formatError: Exc)
    ensures ReadCode(Some(HexText(c)), allowChar, formatError) == Success(Some(c))
  {
    var t := HexText(c);
    HexRoundTrip(c as nat);
    CharFormExtendsHexOrDec(t);
    assert t[0] == '0';
  }

  lemma FlagRoundTrip(b: bool, formatError: Exc)
    ensures ReadFlag(Some(BoolText(b)), formatError) == Success(b)
  {
    BoolRoundTrip(b, "", "");
    assert "" + BoolText(b) + "" == BoolText(b);
  }

  /** An element whose attributes each read as the hotkey's fields reads as that hotkey. */
  lemma ReadHotkeyOfFields(node: XmlNode, h: Hotkey)
    requires Attr(node, "name") == Some(h.name) && !IsBlank(h.name)
    requires Attr(node, "menuItem") == h.menuItem && h.data == Some(node.innerText)
    requires ReadCode(Attr(node, "mods"), false, Leaf(Format, node.outerXml)) == Success(h.mods)
    requires ReadCode(Attr(node, "vkey"), true, Leaf(Format, node.outerXml)) == Success(h.vkey)
    requires ReadFlag(Attr(node, "isScript"), Leaf(Format, node.outerXml)) == Success(h.isScript)
    requires ReadFlag(Attr(node, "hasSeparator"), Leaf(Format, node.outerXml)) == Success(h.addSeparator)
    ensures ReadHotkey(node) == Success(h)
  {
  }

  /** Every hotkey with a non-blank name and data survives being written as an element and read back. */
  lemma ReadHotkeyRoundTrip(h: Hotkey, outerXml: string)
    requires !IsBlank(h.name) && h.data.Some?
    ensures ReadHotkey(HotkeyElement(h, outerXml)) == Success(h)
  {
    var node := HotkeyElement(h, outerXml);
    var formatError := Leaf(Format, outerXml);
    assert Attr(node, "name") == Some(h.name);
    assert Attr(node, "menuItem") == h.menuItem;
    assert Attr(node, "isScript") == Some(BoolText(h.isScript));
    assert Attr(node, "hasSeparator") == Some(BoolText(h.addSeparator));
    if h.mods.Some? {
      assert Attr(node, "mods") == Some(HexText(h.mods.value));
      CodeRoundTrip(h.mods.value, false, formatError);
    } else {
      assert Attr(node, "mods") == None;
    }
    if h.vkey.Some? {
      assert Attr(node, "vkey") == Some(HexText(h.vkey.value));
      CodeRoundTrip(h.vkey.value, true, formatError);
    } else {
      assert Attr(node, "vkey") == None;
    }
    FlagRoundTrip(h.isScript, formatError);
    FlagRoundTrip(h.addSeparator, formatError);
    ReadHotkeyOfFields(node, h);
  }

  lemma TrimOfBlank(s: string)
    requires IsBlank(s)
    ensures Trim(s) == ""
  {
    BlankTrimOffset(s);
  }

  /**
   * Blank means "not given" for the key codes but not for the flags: a
   * blank mods or vkey is no code, while a blank isScript or hasSeparator is
   * a FormatException.
   */
  lemma BlankAttributes(node: XmlNode, key: string)
    requires key in node.attributes && IsBlank(node.attributes[key])
    ensures ReadCode(Attr(node, key), false, Leaf(Format, node.outerXml)) == Success(None)
    ensures ReadFlag(Attr(node, key), Leaf(Format, node.outerXml)) == Failure(Leaf(Format, node.outerXml))
  {
    TrimOfBlank(node.attributes[key]);
  }

  // ---------------------------------------------------------------------------
  // <option> elements
  // ---------------------------------------------------------------------------

  /** The message of the ArgumentException Dictionary.Add throws for a key seen before. */
  function DuplicateKey(key: string): string
  {
    "An item with the same key has already been added. Key: " + key
  }

  /** One <option> element: a name that is not blank, and a value, "" when absent. */
  function ReadOption(node: XmlNode): (r: Result<(string, string), Exc>)
    ensures r.Failure? <==> IsNullOrWhiteSpace(Attr(node, "name"))
    ensures r.Failure? ==> r.error == Leaf(Format, node.outerXml)
    ensures r.Success? ==> Attr(node, "name") == Some(r.value.0) &&
                           r.value.1 == (if "value" in node.attributes then node.attributes["value"] else "")
  {
    var name := Attr(node, "name");
    if IsNullOrWhiteSpace(name) then Failure(Leaf(Format, node.outerXml))
    else Success((name.value, if "value" in node.attributes then node.attributes["value"] else ""))
  }

  /** The options read from the selected elements; Dictionary.Add throws on a name seen before. */
  function OptionsOf(nodes: seq<XmlNode>): (r: Result<map<string, string>, Exc>)
    ensures r.Success? ==> |r.value| == |nodes|
    decreases |nodes|
  {
    if |nodes| == 0 then Success(map[])
    else
      var prev := OptionsOf(nodes[..|nodes| - 1]);
      if prev.Failure? then prev
      else
        var o := ReadOption(nodes[|nodes| - 1]);
        if o.Failure? then Failure(o.error)
        else if o.value.0 in prev.value then Failure(Leaf(Argument, DuplicateKey(o.value.0)))
        else Success(prev.value[o.value.0 := o.value.1])
  }

  /** OptionConfigSection.Create: the loop over the <option> children, adding to the dictionary. */
  method OptionSectionCreate(children: seq<XmlNode>) returns (r: Result<map<string, string>, Exc>)
    ensures r == OptionsOf(Selected(children, "option"))
  {
    var result: map<string, string> := map[];
    ghost var selected: seq<XmlNode> := [];
    for i := 0 to |children|
      invariant selected == Selected(children[..i], "option")
      invariant OptionsOf(selected) == Success(result)
    {
      var node := children[i];
      SelectedStep(children, i, "option");
      if node.name == "option" {
        var o := ReadOption(node);
        OptionsStep(selected, node);
        selected := selected + [node];
        if o.Failure? || o.value.0 in result {
          r := if o.Failure? then Failure(o.error) else Failure(Leaf(Argument, DuplicateKey(o.value.0)));
          OptionsFailureSticks(children, i + 1, "option");
          return;
        }
        result := result[o.value.0 := o.value.1];
      }
    }
    assert children[..|children|] == children;
    r := Success(result);
  }

  /** One more selected element after a prefix that reads. */
  lemma OptionsStep(nodes: seq<XmlNode>, node: XmlNode)
    ensures OptionsOf(nodes + [node]) ==
            if OptionsOf(nodes).Failure? then OptionsOf(nodes)
            else if ReadOption(node).Failure? then Failure(ReadOption(node).error)
            else if ReadOption(node).value.0 in OptionsOf(nodes).value
            then Failure(Leaf(Argument, DuplicateKey(ReadOption(node).value.0)))
            else Success(OptionsOf(nodes).value[ReadOption(node).value.0 := ReadOption(node).value.1])
  {
    assert (nodes + [node])[..|nodes|] == nodes;
  }

  lemma {:induction false} OptionsFailedPrefix(a: seq<XmlNode>, b: seq<XmlNode>)
    requires OptionsOf(a).Failure?
    ensures OptionsOf(a + b) == OptionsOf(a)
    decreases |b|
  {
    if |b| == 0 {
      assert a + b == a;
    } else {
      var ab := a + b;
      assert ab[..|ab| - 1] == a + b[..|b| - 1];
      OptionsFailedPrefix(a, b[..|b| - 1]);
    }
  }

  lemma OptionsFailureSticks(children: seq<XmlNode>, n: nat, tag: string)
    requires n <= |children|
    requires OptionsOf(Selected(children[..n], tag)).Failure?
    ensures OptionsOf(Selected(children, tag)) == OptionsOf(Selected(children[..n], tag))
  {
    assert children == children[..n] + children[n..];
    SelectedAppend(children[..n], children[n..], tag);
    OptionsFailedPrefix(Selected(children[..n], tag), Selected(children[n..], tag));
  }

  predicate AllOptionsRead(nodes: seq<XmlNode>)
  {
    forall k :: 0 <= k < |nodes| ==> ReadOption(nodes[k]).Success?
  }

  predicate DistinctOptionNames(nodes: seq<XmlNode>)
    requires AllOptionsRead(nodes)
  {
    forall i, j :: 0 <= i < j < |nodes| ==> ReadOption(nodes[i]).value.0 != ReadOption(nodes[j]).value.0
  }

  /**
   * The section reads iff every element has a name and no name repeats;
   * it then maps each element's name to its value and has no other key.
   */
  lemma {:induction false} OptionsOfSucceeds(nodes: seq<XmlNode>)
    ensures OptionsOf(nodes).Success? <==> AllOptionsRead(nodes) && DistinctOptionNames(nodes)
    ensures OptionsOf(nodes).Success? ==>
              |OptionsOf(nodes).value| == |nodes| &&
              forall k :: 0 <= k < |nodes| ==>
                var o := ReadOption(nodes[k]).value;
                o.0 in OptionsOf(nodes).value && OptionsOf(nodes).value[o.0] == o.1
    decreases |nodes|
  {
    if |nodes| > 0 {
      var init := nodes[..|nodes| - 1];
      OptionsOfSucceeds(init);
      assert forall k :: 0 <= k < |init| ==> init[k] == nodes[k];
      var prev := OptionsOf(init);
      var o := ReadOption(nodes[|nodes| - 1]);
      if prev.Success? && o.Success? && o.value.0 in prev.value {
        OptionNameFrom(init, o.value.0);
      }
    }
  }

  /** Every key of a section that reads is the name of one of its elements. */
  lemma {:induction false} OptionNameFrom(nodes: seq<XmlNode>, key: string)
    requires OptionsOf(nodes).Success? && key in OptionsOf(nodes).value
    ensures exists k :: 0 <= k < |nodes| && ReadOption(nodes[k]).Success? && ReadOption(nodes[k]).value.0 == key
    decreases |nodes|
  {
    var init := nodes[..|nodes| - 1];
    var o := ReadOption(nodes[|nodes| - 1]);
    if o.value.0 != key {
      OptionNameFrom(init, key);
      var k :| 0 <= k < |init| && ReadOption(init[k]).Success? && ReadOption(init[k]).value.0 == key;
      assert init[k] == nodes[k];
    }
  }
}
