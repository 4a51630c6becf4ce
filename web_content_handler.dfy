/**
 * The HTML-to-speech text handler: a SAX content handler that turns simple
 * HTML into a sentence to be spoken. Opening tags add their label and value
 * to the output and push the element's role text; closing tags pop that
 * text and add it after the element's content.
 */
module WebContent {
  import opened OptionScan

  /** The attributes of one element, by attribute name; an absent name reads as null. */
  type Attributes = map<string, string>

  /** The three description tables the handler is built with. */
  datatype DescriptionTables = DescriptionTables(
    inputTypeToDesc: map<string, string>,
    ariaRoleToDesc: map<string, string>,
    tagToDesc: map<string, string>)

  /** The exceptions a callback can raise. */
  datatype Failure =
    | NullPointer       // a callback before startDocument: the builder and the stack are still null
    | EmptyStack        // endElement with nothing pushed
    | IndexOutOfBounds  // characters with a range outside the array

  // ---------------------------------------------------------------------
  // Characters and strings

  /**
   * Java's Character.isWhitespace on one UTF-16 unit, by the Unicode 6.3 and
   * later tables of Java 9 onward: the space, line and paragraph separators
   * other than the non-breaking ones, and the control characters
   * U+0009..U+000D and U+001C..U+001F.
   */
  predicate IsWhitespace(c: char)
  {
    var n := c as int;
    (0x09 <= n <= 0x0D) || (0x1C <= n <= 0x20) || n == 0x1680 ||
    (0x2000 <= n <= 0x2006) || (0x2008 <= n <= 0x200A) ||
    n == 0x2028 || n == 0x2029 || n == 0x205F || n == 0x3000
  }

  /** ASCII lower-casing of one character. */
  function LowerChar(c: char): (r: char)
    ensures 'A' <= c <= 'Z' ==> r as int == c as int + 32
    ensures !('A' <= c <= 'Z') ==> r == c
  {
    if 'A' <= c <= 'Z' then (c as int + 32) as char else c
  }

  /** String.toLowerCase, on the ASCII letters. */
  function ToLower(s: string): (r: string)
    ensures |r| == |s|
    ensures forall i :: 0 <= i < |s| ==> r[i] == LowerChar(s[i])
  {
    seq(|s|, i requires 0 <= i < |s| => LowerChar(s[i]))
  }

  /** String.equalsIgnoreCase, on the ASCII letters. */
  predicate EqualsIgnoreCase(a: string, b: string)
  {
    ToLower(a) == ToLower(b)
  }

  /** Lower-casing twice is lower-casing once. */
  lemma ToLowerIdempotent(s: string)
    ensures ToLower(ToLower(s)) == ToLower(s)
  {
    assert forall i :: 0 <= i < |s| ==> LowerChar(LowerChar(s[i])) == LowerChar(s[i]);
  }

  /**
   * Element names are case-insensitive: the tag table is read under the
   * lower-cased name and the input/checkbox/radio tests ignore case, so a
   * name and its lower-case form push the same text and speak the same value.
   */
  lemma ElementNameIgnoresCase(tables: DescriptionTables, name: string, attributes: Attributes)
    ensures PostorderText(tables, ToLower(name), attributes) == PostorderText(tables, name, attributes)
    ensures SpokenValue(ToLower(name), attributes) == SpokenValue(name, attributes)
  {
    ToLowerIdempotent(name);
  }

  /** Ignoring case, a string equals a lower-case constant exactly when it lower-cases to it. */
  lemma EqualsIgnoreCaseLowerConstant(a: string, b: string)
    requires ToLower(b) == b
    ensures EqualsIgnoreCase(a, b) <==> ToLower(a) == b
  {
  }

  /** The text an attribute holds, or None for null. */
  function Attr(attributes: Attributes, name: string): (r: Option<string>)
    ensures r.Some? <==> name in attributes
    ensures r.Some? ==> r.value == attributes[name]
  {
    if name in attributes then Some(attributes[name]) else None
  }

  /** Map.get: None for a null key or a key the table does not hold. */
  function Get(table: map<string, string>, key: Option<string>): (r: Option<string>)
    ensures r.Some? <==> key.Some? && key.value in table
    ensures r.Some? ==> r.value == table[key.value]
  {
    if key.Some? && key.value in table then Some(table[key.value]) else None
  }

  // ---------------------------------------------------------------------
  // What one element contributes

  /** The output with a separating space added, when it is non-empty and does not end in whitespace. */
  function FixedWhiteSpace(output: string): string
  {
    if |output| > 0 && !IsWhitespace(output[|output| - 1]) then output + " " else output
  }

  /**
   * fixWhiteSpace adds at most one space, exactly when the output is
   * non-empty and its last character is not whitespace; afterwards the output
   * is empty or ends in whitespace, so a second call adds nothing.
   */
  lemma FixWhiteSpaceSpec(output: string)
    ensures FixedWhiteSpace(output) == output || FixedWhiteSpace(output) == output + " "
    ensures FixedWhiteSpace(output) != output <==> |output| > 0 && !IsWhitespace(output[|output| - 1])
    ensures var r := FixedWhiteSpace(output); r == [] || IsWhitespace(r[|r| - 1])
    ensures FixedWhiteSpace(FixedWhiteSpace(output)) == FixedWhiteSpace(output)
  {
    var r := FixedWhiteSpace(output);
    if r != output {
      assert r[|r| - 1] == ' ';
    }
  }

  /** The label spoken for an element: aria-label, else alt, else title, else none. */
  function Label(attributes: Attributes): Option<string>
  {
    if "aria-label" in attributes then Some(attributes["aria-label"])
    else if "alt" in attributes then Some(attributes["alt"])
    else if "title" in attributes then Some(attributes["title"])
    else None
  }

  /** The label is present exactly when one of the three attributes is, and the first present one wins. */
  lemma LabelPriority(attributes: Attributes)
    ensures Label(attributes).Some? <==>
      "aria-label" in attributes || "alt" in attributes || "title" in attributes
    ensures "aria-label" in attributes ==> Label(attributes) == Attr(attributes, "aria-label")
    ensures "aria-label" !in attributes && "alt" in attributes ==> Label(attributes) == Attr(attributes, "alt")
    ensures "aria-label" !in attributes && "alt" !in attributes ==> Label(attributes) == Attr(attributes, "title")
  {
  }

  /** `name` is an input element with a type attribute. */
  predicate IsTypedInput(name: string, attributes: Attributes)
  {
    EqualsIgnoreCase(name, "input") && "type" in attributes
  }

  /**
   * The post-order text pushed for an element: the role's description if the
   * role maps; for a typed input the type's description or ""; else the tag's
   * description; else "".
   */
  function PostorderText(tables: DescriptionTables, name: string, attributes: Attributes): string
  {
    var roleName := Get(tables.ariaRoleToDesc, Attr(attributes, "role"));
    var tagInfo := Get(tables.tagToDesc, Some(ToLower(name)));
    if roleName.Some? then roleName.value
    else if IsTypedInput(name, attributes) then
      var typeInfo := Get(tables.inputTypeToDesc, Some(ToLower(attributes["type"])));
      if typeInfo.Some? then typeInfo.value else ""
    else if tagInfo.Some? then tagInfo.value
    else ""
  }

  /**
   * The pushed text is always a description from one of the tables or
   * blank; a mapped role beats everything, and a typed input never falls
   * back to the tag table.
   */
  lemma PostorderTextChoice(tables: DescriptionTables, name: string, attributes: Attributes)
    ensures var r := PostorderText(tables, name, attributes);
      r == "" || r in tables.ariaRoleToDesc.Values || r in tables.inputTypeToDesc.Values
              || r in tables.tagToDesc.Values
    ensures "role" in attributes && attributes["role"] in tables.ariaRoleToDesc ==>
      PostorderText(tables, name, attributes) == tables.ariaRoleToDesc[attributes["role"]]
    ensures !("role" in attributes && attributes["role"] in tables.ariaRoleToDesc) && IsTypedInput(name, attributes) ==>
      PostorderText(tables, name, attributes) ==
        (if ToLower(attributes["type"]) in tables.inputTypeToDesc
         then tables.inputTypeToDesc[ToLower(attributes["type"])] else "")
    ensures !("role" in attributes && attributes["role"] in tables.ariaRoleToDesc) && !IsTypedInput(name, attributes) ==>
      PostorderText(tables, name, attributes) ==
        (if ToLower(name) in tables.tagToDesc then tables.tagToDesc[ToLower(name)] else "")
  {
    var r := PostorderText(tables, name, attributes);
    var role := Get(tables.ariaRoleToDesc, Attr(attributes, "role"));
    if role.Some? {
      assert r == tables.ariaRoleToDesc[attributes["role"]];
    } else if IsTypedInput(name, attributes) {
      var key := ToLower(attributes["type"]);
      if key in tables.inputTypeToDesc {
        assert r == tables.inputTypeToDesc[key];
      }
    } else if ToLower(name) in tables.tagToDesc {
      assert r == tables.tagToDesc[ToLower(name)];
    }
  }

  /** The element type the value rule looks at: the type of a typed input, else the tag name. */
  function ElementType(name: string, attributes: Attributes): string
  {
    if IsTypedInput(name, attributes) then attributes["type"] else name
  }

  /** The value spoken for an element: its value attribute, unless it is a checkbox or a radio button. */
  function SpokenValue(name: string, attributes: Attributes): Option<string>
  {
    var elementType := ElementType(name, attributes);
    if "value" in attributes && !EqualsIgnoreCase(elementType, "checkbox") && !EqualsIgnoreCase(elementType, "radio")
    then Some(attributes["value"])
    else None
  }

  /**
   * A value is spoken exactly when there is one and the effective type,
   * compared ignoring case, is neither checkbox nor radio; an input's own name
   * never counts as its type when it has a type attribute.
   */
  lemma SpokenValueRule(name: string, attributes: Attributes)
    ensures SpokenValue(name, attributes).Some? <==>
      "value" in attributes &&
      ToLower(ElementType(name, attributes)) != "checkbox" &&
      ToLower(ElementType(name, attributes)) != "radio"
    ensures SpokenValue(name, attributes).Some? ==> SpokenValue(name, attributes).value == attributes["value"]
    ensures IsTypedInput(name, attributes) && ToLower(attributes["type"]) == "checkbox" ==>
      SpokenValue(name, attributes).None?
    ensures !IsTypedInput(name, attributes) && "value" in attributes && ToLower(name) == "textarea" ==>
      SpokenValue(name, attributes) == Some(attributes["value"])
  {
    assert ToLower("checkbox") == "checkbox";
    assert ToLower("radio") == "radio";
    EqualsIgnoreCaseLowerConstant(ElementType(name, attributes), "checkbox");
    EqualsIgnoreCaseLowerConstant(ElementType(name, attributes), "radio");
  }

  /** The output after startElement: a separating space, the label, then a separated value. */
  function StartElementOutput(output: string, name: string, attributes: Attributes): string
  {
    var labelled := LabelledOutput(output, attributes);
    var value := SpokenValue(name, attributes);
    if value.Some? then FixedWhiteSpace(labelled) + value.value else labelled
  }

  /** The output of startElement before its value: the old output, a separating space, the label. */
  function LabelledOutput(output: string, attributes: Attributes): string
  {
    FixedWhiteSpace(output) + (if Label(attributes).Some? then Label(attributes).value else "")
  }

  /** Appending after a separating space keeps the text so far. */
  lemma FixedThenAppend(output: string, text: string)
    ensures output <= FixedWhiteSpace(output) + text
  {
    assert output <= FixedWhiteSpace(output);
  }

  /**
   * startElement only appends: the old output is kept, and the label follows
   * it after the separating space.
   */
  lemma StartElementAppends(output: string, name: string, attributes: Attributes)
    ensures output <= LabelledOutput(output, attributes) <= StartElementOutput(output, name, attributes)
    ensures output <= StartElementOutput(output, name, attributes)
    ensures SpokenValue(name, attributes).None? ==>
      StartElementOutput(output, name, attributes) == LabelledOutput(output, attributes)
  {
    var labelled := LabelledOutput(output, attributes);
    FixedThenAppend(output, if Label(attributes).Some? then Label(attributes).value else "");
    var value := SpokenValue(name, attributes);
    if value.Some? {
      FixedThenAppend(labelled, value.value);
    }
  }

  /**
   * A spoken value comes last, and the character before it is whitespace
   * unless nothing precedes it.
   */
  lemma StartElementValueLast(output: string, name: string, attributes: Attributes)
    requires SpokenValue(name, attributes).Some?
    ensures var r := StartElementOutput(output, name, attributes);
      var v := SpokenValue(name, attributes).value;
      |v| <= |r| && r[|r| - |v|..] == v &&
      (|r| - |v| > 0 ==> IsWhitespace(r[|r| - |v| - 1]))
  {
    var labelled := LabelledOutput(output, attributes);
    var v := SpokenValue(name, attributes).value;
    var fixedLabelled := FixedWhiteSpace(labelled);
    assert fixedLabelled == [] || IsWhitespace(fixedLabelled[|fixedLabelled| - 1]) by {
      FixWhiteSpaceSpec(labelled);
    }
    var r := fixedLabelled + v;
    assert StartElementOutput(output, name, attributes) == r;
    assert r[|r| - |v|..] == v;
    if |r| - |v| > 0 {
      assert r[|r| - |v| - 1] == fixedLabelled[|fixedLabelled| - 1];
    }
  }

  /** The output after endElement pops `text`: separated from the content only when it is not blank. */
  function EndElementOutput(output: string, text: string): (r: string)
    ensures output <= r && |output| + |text| <= |r|
    ensures r[|r| - |text|..] == text
    ensures text == [] ==> r == output
  {
    var fixedOutput := if |text| > 0 then FixedWhiteSpace(output) else output;
    assert output <= fixedOutput;
    fixedOutput + text
  }

  // ---------------------------------------------------------------------
  // The handler as a state machine over SAX events

  /** The handler's state. `started` is false until startDocument creates the builder and the stack. */
  datatype Handler = Handler(started: bool, output: string, postorderTextStack: seq<string>)

  datatype Event =
    | StartDocument
    | StartElement(name: string, attributes: Attributes)
    | Characters(ch: seq<char>, start: int, length: int)
    | EndElement(name: string)

  /** What a callback or a getter yields: a value, or the exception it throws. */
  datatype Result<T> = Ok(value: T) | Thrown(failure: Failure)

  type Outcome = Result<Handler>

  /** The state after one callback, or the exception it raises (which leaves the state as it was). */
  function Step(tables: DescriptionTables, h: Handler, e: Event): Outcome
  {
    match e
    case StartDocument => Ok(Handler(true, [], []))
    case StartElement(name, attributes) =>
      if !h.started then Thrown(NullPointer)
      else Ok(Handler(true, StartElementOutput(h.output, name, attributes),
                      h.postorderTextStack + [PostorderText(tables, name, attributes)]))
    case Characters(ch, start, length) =>
      if !h.started then Thrown(NullPointer)
      else if start < 0 || length < 0 || start + length > |ch| then Thrown(IndexOutOfBounds)
      else Ok(h.(output := h.output + ch[start..start + length]))
    case EndElement(_) =>
      if !h.started then Thrown(NullPointer)
      else if h.postorderTextStack == [] then Thrown(EmptyStack)
      else
        var text := h.postorderTextStack[|h.postorderTextStack| - 1];
        Ok(Handler(true, EndElementOutput(h.output, text),
                   h.postorderTextStack[..|h.postorderTextStack| - 1]))
  }

  /** Feeding a sequence of callbacks in order; the first exception ends the run. */
  function Run(tables: DescriptionTables, h: Handler, events: seq<Event>): Outcome
    decreases |events|
  {
    if events == [] then Ok(h)
    else
      match Step(tables, h, events[0])
      case Ok(h') => Run(tables, h', events[1..])
      case Thrown(f) => Thrown(f)
  }

  /**
   * One callback other than startDocument keeps everything spoken so far:
   * the old output is a prefix of the new one; startDocument starts afresh.
   */
  lemma StepAppendOnly(tables: DescriptionTables, h: Handler, e: Event)
    ensures Step(tables, h, e).Ok? && !e.StartDocument? ==> h.output <= Step(tables, h, e).value.output
    ensures Step(tables, h, StartDocument) == Ok(Handler(true, [], []))
  {
    if e.StartElement? && h.started {
      StartElementAppends(h.output, e.name, e.attributes);
    }
  }

  /** startElement pushes exactly one entry, endElement pops exactly one, characters leaves the stack. */
  lemma StepStack(tables: DescriptionTables, h: Handler, e: Event)
    requires Step(tables, h, e).Ok?
    ensures var s := Step(tables, h, e).value.postorderTextStack;
      match e
      case StartDocument => s == []
      case StartElement(name, attributes) => s == h.postorderTextStack + [PostorderText(tables, name, attributes)]
      case Characters(_, _, _) => s == h.postorderTextStack
      case EndElement(_) => |h.postorderTextStack| > 0 && s == h.postorderTextStack[..|s|] && |s| == |h.postorderTextStack| - 1
  {
  }

  /** characters appends exactly ch[start..start+length]; it fails only on a bad range or before startDocument. */
  lemma CharactersAppends(tables: DescriptionTables, h: Handler, ch: seq<char>, start: int, length: int)
    requires h.started
    ensures Step(tables, h, Characters(ch, start, length)).Ok? <==> 0 <= start && 0 <= length && start + length <= |ch|
    ensures Step(tables, h, Characters(ch, start, length)).Ok? ==>
      var out := Step(tables, h, Characters(ch, start, length)).value.output;
      |out| == |h.output| + length && out[..|h.output|] == h.output && out[|h.output|..] == ch[start..start + length]
  {
  }

  /** No callback is served before startDocument. */
  lemma NotStartedThrows(tables: DescriptionTables, h: Handler, e: Event)
    requires !h.started && !e.StartDocument?
    ensures Step(tables, h, e) == Thrown(NullPointer)
  {
  }

  /** Running `a` then `b` is running `a + b`. */
  lemma {:induction false} RunAppend(tables: DescriptionTables, h: Handler, a: seq<Event>, b: seq<Event>)
    ensures Run(tables, h, a + b) ==
      (if Run(tables, h, a).Ok? then Run(tables, Run(tables, h, a).value, b) else Run(tables, h, a))
    decreases |a|
  {
    if a != [] {
      assert (a + b)[0] == a[0];
      assert (a + b)[1..] == a[1..] + b;
      match Step(tables, h, a[0])
      case Ok(h') => RunAppend(tables, h', a[1..], b);
      case Thrown(f) =>
    } else {
      assert a + b == b;
    }
  }

  /** No callback of the run is startDocument. */
  predicate NoRestart(events: seq<Event>)
  {
    forall i :: 0 <= i < |events| ==> !events[i].StartDocument?
  }

  /** A run without startDocument only ever appends to the output. */
  lemma {:induction false} RunAppendOnly(tables: DescriptionTables, h: Handler, events: seq<Event>)
    requires NoRestart(events)
    requires Run(tables, h, events).Ok?
    ensures h.output <= Run(tables, h, events).value.output
    decreases |events|
  {
    if events != [] {
      StepAppendOnly(tables, h, events[0]);
      var h' := Step(tables, h, events[0]).value;
      assert NoRestart(events[1..]) by {
        forall i | 0 <= i < |events| - 1 ensures !events[1..][i].StartDocument? {
          assert events[1..][i] == events[i + 1];
        }
      }
      RunAppendOnly(tables, h', events[1..]);
    }
  }

  /**
   * Events that raise nothing when `depth` entries may be popped: every end
   * tag closes an open element and every characters range lies inside its
   * array; startDocument does not occur.
   */
  predicate WellNestedFrom(depth: nat, events: seq<Event>)
    decreases |events|
  {
    events == [] ||
    match events[0]
    case StartDocument => false
    case StartElement(_, _) => WellNestedFrom(depth + 1, events[1..])
    case Characters(ch, start, length) =>
      0 <= start && 0 <= length && start + length <= |ch| && WellNestedFrom(depth, events[1..])
    case EndElement(_) => depth > 0 && WellNestedFrom(depth - 1, events[1..])
  }

  /** The number of entries of a stack of `depth` entries after the events: opened minus closed. */
  function DepthAfter(depth: int, events: seq<Event>): int
    decreases |events|
  {
    if events == [] then depth
    else match events[0]
      case StartElement(_, _) => DepthAfter(depth + 1, events[1..])
      case EndElement(_) => DepthAfter(depth - 1, events[1..])
      case _ => DepthAfter(depth, events[1..])
  }

  /** A well-nested event sequence splits into a well-nested first event and a well-nested rest. */
  lemma WellNestedHead(depth: nat, events: seq<Event>)
    requires events != [] && WellNestedFrom(depth, events)
    ensures WellNestedFrom(depth, [events[0]])
    ensures DepthAfter(depth, [events[0]]) >= 0
    ensures WellNestedFrom(DepthAfter(depth, [events[0]]) as nat, events[1..])
    ensures DepthAfter(depth, events) == DepthAfter(DepthAfter(depth, [events[0]]), events[1..])
  {
    assert [events[0]][1..] == [];
  }

  /**
   * One well-nested event from a started handler raises nothing, keeps the
   * handler started and leaves the entries below the `depth` it may pop.
   */
  lemma WellNestedStep(tables: DescriptionTables, h: Handler, e: Event, depth: nat)
    requires h.started && depth <= |h.postorderTextStack|
    requires WellNestedFrom(depth, [e])
    ensures Step(tables, h, e).Ok? && Step(tables, h, e).value.started
    ensures var s := h.postorderTextStack;
      var s' := Step(tables, h, e).value.postorderTextStack;
      var d := DepthAfter(depth, [e]);
      0 <= d <= |s'| && |s'| - d == |s| - depth && s'[..|s'| - d] == s[..|s| - depth]
  {
    assert [e][1..] == [];
    StepStack(tables, h, e);
  }

  /**
   * From a started handler, well-nested events that may pop at most `depth`
   * of the entries run without an exception, leave the entries below those
   * untouched, and end with as many entries as elements remain open.
   */
  lemma {:induction false} WellNestedRuns(tables: DescriptionTables, h: Handler, events: seq<Event>, depth: nat)
    requires h.started && depth <= |h.postorderTextStack|
    requires WellNestedFrom(depth, events)
    ensures Run(tables, h, events).Ok?
    ensures var s := Run(tables, h, events).value.postorderTextStack;
      Run(tables, h, events).value.started &&
      h.postorderTextStack[..|h.postorderTextStack| - depth] <= s &&
      |s| == |h.postorderTextStack| - depth + DepthAfter(depth, events)
    decreases |events|
  {
    if events != [] {
      WellNestedHead(depth, events);
      WellNestedStep(tables, h, events[0], depth);
      var h' := Step(tables, h, events[0]).value;
      assert Run(tables, h, events) == Run(tables, h', events[1..]);
      WellNestedRuns(tables, h', events[1..], DepthAfter(depth, [events[0]]) as nat);
    }
  }

  /** Conversely, a run from a started handler that raises nothing and never restarts is well nested. */
  lemma {:induction false} RunsAreWellNested(tables: DescriptionTables, h: Handler, events: seq<Event>)
    requires h.started && NoRestart(events)
    requires Run(tables, h, events).Ok?
    ensures WellNestedFrom(|h.postorderTextStack|, events)
    ensures |Run(tables, h, events).value.postorderTextStack| == DepthAfter(|h.postorderTextStack|, events)
    decreases |events|
  {
    if events != [] {
      var h' := Step(tables, h, events[0]).value;
      assert NoRestart(events[1..]) by {
        forall i | 0 <= i < |events| - 1 ensures !events[1..][i].StartDocument? {
          assert events[1..][i] == events[i + 1];
        }
      }
      assert !events[0].StartDocument?;
      RunsAreWellNested(tables, h', events[1..]);
    }
  }

  /**
   * A document: after startDocument, the stack depth is the number of
   * elements still open, and a document whose elements are all closed ends
   * with an empty stack.
   */
  lemma DocumentDepth(tables: DescriptionTables, h: Handler, events: seq<Event>)
    requires WellNestedFrom(0, events)
    ensures Run(tables, h, [StartDocument] + events).Ok?
    ensures |Run(tables, h, [StartDocument] + events).value.postorderTextStack| == DepthAfter(0, events)
  {
    var doc := [StartDocument] + events;
    assert doc[0] == StartDocument && doc[1..] == events;
    WellNestedRuns(tables, Handler(true, [], []), events, 0);
  }

  /**
   * An element's role text is spoken when the element closes: after its
   * start tag, content that closes whatever it opens, and its end tag, the
   * stack is back as it was and the output ends with the element's text.
   */
  lemma EndTagSpeaksRoleText(tables: DescriptionTables, h: Handler, name: string, attributes: Attributes,
                             content: seq<Event>, endName: string)
    requires h.started
    requires WellNestedFrom(0, content) && DepthAfter(0, content) == 0
    ensures var r := Run(tables, h, [StartElement(name, attributes)] + content + [EndElement(endName)]);
      var text := PostorderText(tables, name, attributes);
      r.Ok? && r.value.postorderTextStack == h.postorderTextStack &&
      h.output <= r.value.output && |text| <= |r.value.output| &&
      r.value.output[|r.value.output| - |text|..] == text
  {
    var open := [StartElement(name, attributes)];
    var close := [EndElement(endName)];
    var text := PostorderText(tables, name, attributes);
    var h1 := Step(tables, h, open[0]).value;
    assert Run(tables, h, open) == Ok(h1);
    assert h1.postorderTextStack == h.postorderTextStack + [text];
    WellNestedRuns(tables, h1, content, 0);
    var h2 := Run(tables, h1, content).value;
    assert h2.postorderTextStack == h1.postorderTextStack;
    RunAppend(tables, h, open, content);
    RunAppend(tables, h, open + content, close);
    assert Run(tables, h2, close) == Step(tables, h2, close[0]);
    StepAppendOnly(tables, h, open[0]);
    assert NoRestart(content) by {
      RunsAreWellNestedNoRestart(content, 0);
    }
    RunAppendOnly(tables, h1, content);
    assert h2.postorderTextStack[|h2.postorderTextStack| - 1] == text;
  }

  /** Well-nested events never contain startDocument. */
  lemma {:induction false} RunsAreWellNestedNoRestart(events: seq<Event>, depth: nat)
    requires WellNestedFrom(depth, events)
    ensures NoRestart(events)
    decreases |events|
  {
    if events != [] {
      match events[0]
      case StartElement(_, _) => RunsAreWellNestedNoRestart(events[1..], depth + 1);
      case Characters(_, _, _) => RunsAreWellNestedNoRestart(events[1..], depth);
      case EndElement(_) => RunsAreWellNestedNoRestart(events[1..], depth - 1);
      forall i | 1 <= i < |events| ensures !events[i].StartDocument? {
        assert events[i] == events[1..][i - 1];
      }
    }
  }

  // ---------------------------------------------------------------------
  // The handler object

  /** The SAX handler: three description tables, an output builder and the post-order stack. */
  class WebContentHandler {
    const inputTypeToDesc: map<string, string>
    const ariaRoleToDesc: map<string, string>
    const tagToDesc: map<string, string>
    /** False until startDocument; before that the builder and the stack are null. */
    var started: bool
    var postorderTextStack: seq<string>
    var outputBuilder: string

    constructor (htmlInputMap: map<string, string>, htmlRoleMap: map<string, string>,
                 htmlTagMap: map<string, string>)
      ensures inputTypeToDesc == htmlInputMap && ariaRoleToDesc == htmlRoleMap && tagToDesc == htmlTagMap
      ensures !started
    {
      inputTypeToDesc := htmlInputMap;
      ariaRoleToDesc := htmlRoleMap;
      tagToDesc := htmlTagMap;
      started := false;
      postorderTextStack := [];
      outputBuilder := [];
    }

    function Tables(): DescriptionTables
    {
      DescriptionTables(inputTypeToDesc, ariaRoleToDesc, tagToDesc)
    }

    function State(): Handler
      reads this
    {
      Handler(started, outputBuilder, postorderTextStack)
    }

    /** The state a callback leaves: the new one, or the old one when it throws. */
    predicate Completed(thrown: Option<Failure>, before: Handler, e: Event)
      reads this
    {
      Step(Tables(), before, e) == (if thrown.None? then Ok(State()) else Thrown(thrown.value)) &&
      (thrown.Some? ==> State() == before)
    }

    method StartDocument()
      modifies this
      ensures started && outputBuilder == [] && postorderTextStack == []
      ensures Completed(None, old(State()), Event.StartDocument)
    {
      outputBuilder := [];
      postorderTextStack := [];
      started := true;
    }

    /** Adds a separating space unless the output is empty or already ends in whitespace. */
    method FixWhiteSpace()
      requires started
      modifies this
      ensures outputBuilder == FixedWhiteSpace(old(outputBuilder))
      ensures started == old(started) && postorderTextStack == old(postorderTextStack)
    {
      var index := |outputBuilder| - 1;
      if index >= 0 {
        var lastCharacter := outputBuilder[index];
        if !IsWhitespace(lastCharacter) {
          outputBuilder := outputBuilder + " ";
        }
      }
    }

    /**
     * Speaks the element's label and value and pushes its role text, to be
     * spoken when the element closes.
     */
    method StartElement(name: string, attributes: Attributes) returns (thrown: Option<Failure>)
      modifies this
      ensures thrown.None? <==> old(started)
      ensures thrown.None? ==> postorderTextStack == old(postorderTextStack) + [PostorderText(Tables(), name, attributes)]
      ensures thrown.None? ==> outputBuilder == StartElementOutput(old(outputBuilder), name, attributes)
      ensures Completed(thrown, old(State()), Event.StartElement(name, attributes))
    {
      if !started {
        return Some(NullPointer);
      }
      FixWhiteSpace();
      AppendLabel(attributes);
      PushPostorderText(name, attributes);
      AppendValue(name, attributes);
      thrown := None;
    }

    /** The label part of startElement: aria-label, else alt, else title. */
    method AppendLabel(attributes: Attributes)
      requires started
      modifies this
      ensures outputBuilder == old(outputBuilder) + (if Label(attributes).Some? then Label(attributes).value else "")
      ensures started == old(started) && postorderTextStack == old(postorderTextStack)
    {
      var ariaLabel := Attr(attributes, "aria-label");
      var alt := Attr(attributes, "alt");
      var title := Attr(attributes, "title");
      if ariaLabel.Some? {
        outputBuilder := outputBuilder + ariaLabel.value;
      } else if alt.Some? {
        outputBuilder := outputBuilder + alt.value;
      } else if title.Some? {
        outputBuilder := outputBuilder + title.value;
      }
    }

    /** The push part of startElement: exactly one entry, blank when nothing describes the element. */
    method PushPostorderText(name: string, attributes: Attributes)
      requires started
      modifies this
      ensures postorderTextStack == old(postorderTextStack) + [PostorderText(Tables(), name, attributes)]
      ensures started == old(started) && outputBuilder == old(outputBuilder)
    {
      var role := Attr(attributes, "role");
      var roleName := Get(ariaRoleToDesc, role);
      var typeAttr := Attr(attributes, "type");
      var tagInfo := Get(tagToDesc, Some(ToLower(name)));
      if roleName.Some? {
        postorderTextStack := postorderTextStack + [roleName.value];
      } else if EqualsIgnoreCase(name, "input") && typeAttr.Some? {
        var typeInfo := Get(inputTypeToDesc, Some(ToLower(typeAttr.value)));
        if typeInfo.Some? {
          postorderTextStack := postorderTextStack + [typeInfo.value];
        } else {
          postorderTextStack := postorderTextStack + [""];
        }
      } else if tagInfo.Some? {
        postorderTextStack := postorderTextStack + [tagInfo.value];
      } else {
        postorderTextStack := postorderTextStack + [""];
      }
    }

    /** The value part of startElement: the value, separated, unless the element is a checkbox or a radio button. */
    method AppendValue(name: string, attributes: Attributes)
      requires started
      modifies this
      ensures SpokenValue(name, attributes).None? ==> outputBuilder == old(outputBuilder)
      ensures SpokenValue(name, attributes).Some? ==>
        outputBuilder == FixedWhiteSpace(old(outputBuilder)) + SpokenValue(name, attributes).value
      ensures started == old(started) && postorderTextStack == old(postorderTextStack)
    {
      var typeAttr := Attr(attributes, "type");
      var value := Attr(attributes, "value");
      if value.Some? {
        var elementType := name;
        if EqualsIgnoreCase(name, "input") && typeAttr.Some? {
          elementType := typeAttr.value;
        }
        if !EqualsIgnoreCase(elementType, "checkbox") && !EqualsIgnoreCase(elementType, "radio") {
          FixWhiteSpace();
          outputBuilder := outputBuilder + value.value;
        }
      }
    }

    /** Appends ch[start..start+length] to the output. */
    method Characters(ch: seq<char>, start: int, length: int) returns (thrown: Option<Failure>)
      modifies this
      ensures thrown.None? <==> old(started) && 0 <= start && 0 <= length && start + length <= |ch|
      ensures thrown.None? ==> outputBuilder == old(outputBuilder) + ch[start..start + length]
      ensures thrown.None? ==> postorderTextStack == old(postorderTextStack)
      ensures Completed(thrown, old(State()), Event.Characters(ch, start, length))
    {
      if !started {
        return Some(NullPointer);
      }
      if start < 0 || length < 0 || start + length > |ch| {
        return Some(IndexOutOfBounds);
      }
      outputBuilder := outputBuilder + ch[start..start + length];
      thrown := None;
    }

    /** Pops the element's role text and speaks it, separated from the content when it is not blank. */
    method EndElement(name: string) returns (thrown: Option<Failure>)
      modifies this
      ensures thrown.None? <==> old(started) && old(postorderTextStack) != []
      ensures thrown.None? ==>
        var text := old(postorderTextStack)[|old(postorderTextStack)| - 1];
        postorderTextStack == old(postorderTextStack)[..|old(postorderTextStack)| - 1] &&
        outputBuilder == EndElementOutput(old(outputBuilder), text)
      ensures Completed(thrown, old(State()), Event.EndElement(name))
    {
      if !started {
        return Some(NullPointer);
      }
      if postorderTextStack == [] {
        return Some(EmptyStack);
      }
      var postorderText := postorderTextStack[|postorderTextStack| - 1];
      postorderTextStack := postorderTextStack[..|postorderTextStack| - 1];
      if |postorderText| > 0 {
        FixWhiteSpace();
      }
      outputBuilder := outputBuilder + postorderText;
      thrown := None;
    }

    /** The text spoken so far; before startDocument the builder is null and the call throws. */
    function GetOutput(): (r: Result<string>)
      reads this
      ensures r.Ok? <==> started
      ensures r.Ok? ==> r.value == outputBuilder
      ensures !started ==> r == Thrown(NullPointer)
    {
      if started then Ok(outputBuilder) else Thrown(NullPointer)
    }
  }
}
