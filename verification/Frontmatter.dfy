/**
 The bounded frontmatter parser (parseBoundedFrontmatter in source-frontmatter.ts).

 Number recognition (`String(Number(t)) === t`) and JSON string decoding are parameters; a number is
 kept as its text. Diagnostics carry the line number or the key instead of a sentence.
 */
module Frontmatter {
  import opened Common
  import opened Text
  import opened FrontmatterTokens

  datatype Scalar = Str(text: string) | Num(text: string) | Bool(b: bool) | Null

  datatype Value = Single(scalar: Scalar) | List(items: seq<Scalar>) | Record(entries: map<string, Scalar>)

  /** What stands on the line of a key: a scalar, a list in brackets, or "{}". */
  datatype InlineValue = One(scalar: Scalar) | Many(items: seq<Scalar>) | NoEntries

  datatype Lexer = Lexer(isNumber: string -> bool, json: string -> Option<string>)

  datatype Syntax = Syntax(quotedKeys: bool, stringValues: bool, balancedLists: bool)

  datatype Diagnostic =
    | NotClosed | TabIndentation(line: nat) | UnsupportedLine(line: nat) | OrphanLine(line: nat)
    | UnsafeKey(key: string) | DuplicateKey(key: string) | UnsupportedValue(key: string)
    | InvalidItem(key: string) | UnsupportedItem(key: string) | MixedContainer(key: string) | UnsupportedNested(key: string)
    | UnsafeMapKey(key: string, sub: string) | RejectedMapValue(key: string, sub: string) | DuplicateMapKey(key: string, sub: string)

  datatype Parsed = Parsed(hasFrontmatter: bool, closed: bool, values: map<string, Value>, presentKeys: seq<string>,
                           body: string, diagnostics: seq<Diagnostic>)

  const FENCE := "---"

  predicate UnsafeName(key: string) {
    key == "__proto__" || key == "constructor" || key == "prototype"
  }

  // ---------- lines ----------

  datatype Line = Line(text: string, endOffset: nat)

  function WithoutReturn(raw: string): string {
    if raw != "" && raw[|raw| - 1] == '\r' then raw[..|raw| - 1] else raw
  }

  function NewlineAt(content: string, i: nat): (n: nat)
    requires i <= |content|
    ensures i <= n <= |content| && (n < |content| ==> content[n] == '\n')
    ensures forall j :: i <= j < n ==> content[j] != '\n'
    decreases |content| - i
  {
    if i == |content| || content[i] == '\n' then i else NewlineAt(content, i + 1)
  }

  function LinesFrom(content: string, start: nat): (lines: seq<Line>)
    requires start <= |content|
    ensures lines != []
    decreases |content| - start
  {
    var n := NewlineAt(content, start);
    if n == |content| then [Line(WithoutReturn(content[start..]), |content|)]
    else [Line(WithoutReturn(content[start..n]), n + 1)] + LinesFrom(content, n + 1)
  }

  predicate EndsInReturn(t: string) {
    t != "" && t[|t| - 1] == '\r'
  }

  /** A line's text is the stretch of the content it covers without its line terminator: one carriage
      return goes with the line feed, or with the end of the content. */
  predicate Covers(content: string, start: nat, line: Line) {
    && start <= line.endOffset <= |content|
    && var stretch := content[start..line.endOffset];
       || (stretch == line.text && !EndsInReturn(line.text)) || stretch == line.text + "\r"
       || (stretch == line.text + "\n" && !EndsInReturn(line.text)) || stretch == line.text + "\r\n"
  }

  function StartOf(lines: seq<Line>, i: nat, start: nat): nat
    requires i < |lines|
  {
    if i == 0 then start else lines[i - 1].endOffset
  }

  lemma StretchWithoutReturn(raw: string)
    ensures (raw == WithoutReturn(raw) && !EndsInReturn(raw)) || raw == WithoutReturn(raw) + "\r"
  {
  }

  lemma CoversTerminated(content: string, start: nat, n: nat)
    requires start <= n < |content| && content[n] == '\n'
    ensures Covers(content, start, Line(WithoutReturn(content[start..n]), n + 1))
  {
    hide WithoutReturn;
    var raw := content[start..n];
    StretchWithoutReturn(raw);
    assert content[start..n + 1] == raw + "\n";
    assert WithoutReturn(raw) + "\r" + "\n" == WithoutReturn(raw) + "\r\n";
  }

  lemma CoversLast(content: string, start: nat)
    requires start <= |content|
    ensures Covers(content, start, Line(WithoutReturn(content[start..]), |content|))
  {
    hide WithoutReturn;
    StretchWithoutReturn(content[start..]);
    assert content[start..|content|] == content[start..];
  }

  predicate CoverAll(content: string, start: nat, lines: seq<Line>) {
    forall i :: 0 <= i < |lines| ==> Covers(content, StartOf(lines, i, start), lines[i])
  }

  lemma CoverOneMore(content: string, start: nat, line: Line, rest: seq<Line>)
    requires Covers(content, start, line) && CoverAll(content, line.endOffset, rest)
    ensures CoverAll(content, start, [line] + rest)
  {
    hide Covers;
    var lines := [line] + rest;
    forall i | 0 <= i < |lines| ensures Covers(content, StartOf(lines, i, start), lines[i]) {
      if i > 0 { assert lines[i] == rest[i - 1] && StartOf(lines, i, start) == StartOf(rest, i - 1, line.endOffset); }
    }
  }

  /** The lines cover the content from the first offset to the end, one stretch after the other. */
  lemma {:induction false} LinesCover(content: string, start: nat)
    requires start <= |content|
    ensures var lines := LinesFrom(content, start); lines[|lines| - 1].endOffset == |content| && CoverAll(content, start, lines)
    decreases |content| - start
  {
    hide Covers, WithoutReturn, CoverAll;
    var n := NewlineAt(content, start);
    if n < |content| {
      CoversTerminated(content, start, n);
      LinesCover(content, n + 1);
      CoverOneMore(content, start, Line(WithoutReturn(content[start..n]), n + 1), LinesFrom(content, n + 1));
    } else {
      CoversLast(content, start);
      CoverNothing(content, |content|);
      var last := Line(WithoutReturn(content[start..]), |content|);
      CoverOneMore(content, start, last, []);
      assert [last] + [] == [last];
    }
  }

  lemma CoverNothing(content: string, start: nat)
    ensures CoverAll(content, start, [])
  {
  }

  /** No line holds a line feed. */
  lemma {:induction false} LinesHoldNoFeed(content: string, start: nat)
    requires start <= |content|
    ensures forall line :: line in LinesFrom(content, start) ==> '\n' !in line.text
    decreases |content| - start
  {
    var n := NewlineAt(content, start);
    if n < |content| { LinesHoldNoFeed(content, n + 1); }
  }

  /** splitLinesWithOffsets. */
  method SplitLinesWithOffsets(content: string) returns (lines: seq<Line>)
    ensures lines == LinesFrom(content, 0)
  {
    hide LinesFrom, WithoutReturn;
    lines := [];
    var start, index := 0, 0;
    while index < |content|
      invariant 0 <= start <= index <= |content|
      invariant LinesFrom(content, 0) == lines + LinesFrom(content, start)
      invariant forall j :: start <= j < index ==> content[j] != '\n'
    {
      if content[index] == '\n' {
        LineEnds(content, start, index);
        lines := lines + [Line(WithoutReturn(content[start..index]), index + 1)];
        start := index + 1;
      }
      index := index + 1;
    }
    LastLine(content, start);
    lines := lines + [Line(WithoutReturn(content[start..]), |content|)];
  }

  lemma LineEnds(content: string, start: nat, index: nat)
    requires start <= index < |content| && content[index] == '\n' && forall j :: start <= j < index ==> content[j] != '\n'
    ensures LinesFrom(content, start) == [Line(WithoutReturn(content[start..index]), index + 1)] + LinesFrom(content, index + 1)
  {
    assert NewlineAt(content, start) == index;
  }

  lemma LastLine(content: string, start: nat)
    requires start <= |content| && forall j :: start <= j < |content| ==> content[j] != '\n'
    ensures LinesFrom(content, start) == [Line(WithoutReturn(content[start..]), |content|)]
  {
    assert NewlineAt(content, start) == |content|;
  }

  // ---------- scalars, keys and inline values ----------

  predicate EndsWith(s: string, c: char) {
    s != "" && s[|s| - 1] == c
  }

  predicate BeginsWith(s: string, c: char) {
    s != "" && s[0] == c
  }

  /** `t.slice(1, -1)`. */
  function Inner(t: string): string {
    if |t| < 2 then "" else t[1..|t| - 1]
  }

  /** `t.split("''").join("'")`. */
  function Undouble(t: string): string {
    if t == "" then ""
    else if |t| >= 2 && t[0] == '\'' && t[1] == '\'' then "'" + Undouble(t[2..])
    else [t[0]] + Undouble(t[1..])
  }

  function ParseScalar(lexer: Lexer, raw: string): Option<Scalar> {
    var t := StripComment(Trim(raw));
    if t == "" then Some(Str(""))
    else if t == "null" || t == "~" then Some(Null)
    else if t == "true" then Some(Bool(true))
    else if t == "false" then Some(Bool(false))
    else if lexer.isNumber(t) then Some(Num(t))
    else if BeginsWith(t, '"') || EndsWith(t, '"') then
      if !(BeginsWith(t, '"') && EndsWith(t, '"')) then None
      else
        match lexer.json(t)
        case None => None
        case Some(text) => Some(Str(text))
    else if BeginsWith(t, '\'') || EndsWith(t, '\'') then
      if !(BeginsWith(t, '\'') && EndsWith(t, '\'')) then None else Some(Str(Undouble(Inner(t))))
    else if BeginsWith(t, '|') || BeginsWith(t, '>') || BeginsWith(t, '{') then None
    else Some(Str(t))
  }

  function ParseAll(lexer: Lexer, tokens: seq<string>): Option<seq<Scalar>> {
    if tokens == [] then Some([])
    else
      match (ParseAll(lexer, tokens[..|tokens| - 1]), ParseScalar(lexer, tokens[|tokens| - 1]))
      case (Some(items), Some(item)) => Some(items + [item])
      case _ => None
  }

  function ParseInline(lexer: Lexer, syntax: Syntax, raw: string): Option<InlineValue> {
    var t := StripComment(Trim(raw));
    if BeginsWith(t, '[') && EndsWith(t, ']') then
      match ParseAll(lexer, SplitTokens(Inner(t), syntax.balancedLists))
      case None => None
      case Some(items) => Some(Many(items))
    else if t == "{}" then Some(NoEntries)
    else
      match ParseScalar(lexer, t)
      case None => None
      case Some(scalar) => Some(One(scalar))
  }

  function MappingKey(lexer: Lexer, rawKey: string): Option<string> {
    var key := Trim(rawKey);
    if key == "" then None
    else if BeginsWith(key, '"') || EndsWith(key, '"') || BeginsWith(key, '\'') || EndsWith(key, '\'') then
      match ParseScalar(lexer, key)
      case Some(Str(text)) => if text != "" then Some(text) else None
      case _ => None
    else Some(key)
  }

  function ColonAt(line: string): (n: nat)
    ensures n <= |line| && (n < |line| ==> line[n] == ':')
  {
    if line == "" || line[0] == ':' then 0 else 1 + ColonAt(line[1..])
  }

  function SplitKeyValue(lexer: Lexer, syntax: Syntax, line: string): Option<(string, string)> {
    var n := ColonAt(line);
    if n == 0 || n == |line| then None
    else
      match (if syntax.quotedKeys then MappingKey(lexer, line[..n]) else Some(Trim(line[..n])))
      case None => None
      case Some(key) => Some((key, Trim(line[n + 1..])))
  }

  predicate AcceptedMapValue(v: Option<Scalar>, syntax: Syntax) {
    if syntax.stringValues then v.Some? && v.value.Str? else v.Some? && !v.value.Null?
  }

  // ---------- what one line says ----------

  datatype TopValue = NoValue | Unsupported(raw: string) | Inline(value: InlineValue)

  datatype Action =
    | Nothing
    | TabIndented
    | BadTop
    | Top(key: string, value: TopValue)
    | BadItem
    | Item(scalar: Option<Scalar>)
    | BadEntry
    | Entry(sub: string, parsed: Option<Scalar>)

  function LeadingSpaces(line: string): (n: nat)
    ensures n <= |line|
  {
    if line != "" && line[0] == ' ' then 1 + LeadingSpaces(line[1..]) else 0
  }

  predicate Skipped(raw: string) {
    Trim(raw) == "" || BeginsWith(TrimStart(raw), '#')
  }

  /** A line without indentation. */
  function TopAction(raw: string, syntax: Syntax, lexer: Lexer): Action {
    match SplitKeyValue(lexer, syntax, raw)
    case None => BadTop
    case Some((key, rawValue)) =>
      if rawValue == "" then Top(key, NoValue)
      else
        match ParseInline(lexer, syntax, rawValue)
        case None => Top(key, Unsupported(rawValue))
        case Some(value) => Top(key, Inline(value))
  }

  /** An indented line, trimmed. */
  function NestedAction(nested: string, syntax: Syntax, lexer: Lexer): (a: Action)
    ensures a.BadItem? || a.Item? || a.BadEntry? || a.Entry?
  {
    if BeginsWith(nested, '-') then
      if |nested| == 1 || nested[1] != ' ' then BadItem else Item(ParseScalar(lexer, Trim(nested[2..])))
    else
      match SplitKeyValue(lexer, syntax, nested)
      case None => BadEntry
      case Some((sub, rawValue)) => Entry(sub, ParseScalar(lexer, rawValue))
  }

  function Classify(raw: string, syntax: Syntax, lexer: Lexer): Action {
    if Skipped(raw) then Nothing
    else
      var indentation := LeadingSpaces(raw);
      if indentation < |raw| && raw[indentation] == '\t' then TabIndented
      else if indentation == 0 then TopAction(raw, syntax, lexer)
      else NestedAction(Trim(raw), syntax, lexer)
  }

  // ---------- the parser's state ----------

  datatype Kind = Unknown | ListKind | RecordKind

  datatype Container = NoContainer | Active(key: string, kind: Kind)

  datatype State = State(values: map<string, Value>, presentKeys: seq<string>, diagnostics: seq<Diagnostic>, active: Container)

  const START := State(map[], [], [], NoContainer)

  /** The active container's kind says what is stored under its key, so the parser's casts are safe. */
  predicate KindMatches(s: State) {
    match s.active
    case NoContainer => true
    case Active(key, Unknown) => key in s.values && s.values[key] == Single(Null)
    case Active(key, ListKind) => key in s.values && s.values[key].List?
    case Active(key, RecordKind) => key in s.values && s.values[key].Record?
  }

  ghost predicate KeysAgree(s: State) {
    && NoRepeats(s.presentKeys)
    && (forall k :: k in s.presentKeys <==> k in s.values)
    && (forall k :: k in s.values ==> !UnsafeName(k))
  }

  predicate MapAccepted(entries: map<string, Scalar>, syntax: Syntax) {
    forall k :: k in entries ==> k != "" && !UnsafeName(k) && AcceptedMapValue(Some(entries[k]), syntax)
  }

  predicate MapsAccepted(s: State, syntax: Syntax) {
    forall k :: k in s.values && s.values[k].Record? ==> MapAccepted(s.values[k].entries, syntax)
  }

  ghost predicate Sound(s: State, syntax: Syntax) {
    KindMatches(s) && KeysAgree(s) && MapsAccepted(s, syntax)
  }

  function Report(s: State, d: Diagnostic): State {
    s.(diagnostics := s.diagnostics + [d])
  }

  function Abandon(s: State, d: Diagnostic): State {
    Report(s, d).(active := NoContainer)
  }

  function SetValue(s: State, key: string, v: Value): State {
    s.(values := s.values[key := v])
  }

  function Stored(v: TopValue): Value {
    match v
    case NoValue => Single(Null)
    case Unsupported(raw) => Single(Str(raw))
    case Inline(One(scalar)) => Single(scalar)
    case Inline(Many(items)) => List(items)
    case Inline(NoEntries) => Record(map[])
  }

  function TopLine(s: State, key: string, value: TopValue): State {
    if UnsafeName(key) then Abandon(s, UnsafeKey(key))
    else if key in s.values then Abandon(s, DuplicateKey(key))
    else
      var named := SetValue(s, key, Stored(value)).(presentKeys := s.presentKeys + [key]);
      match value
      case NoValue => named.(active := Active(key, Unknown))
      case Unsupported(_) => Abandon(named, UnsupportedValue(key))
      case Inline(_) => named.(active := NoContainer)
  }

  /** The container of this kind, made on the first nested line. */
  function Opened(s: State, kind: Kind): (r: State)
    requires KindMatches(s) && s.active.Active? && kind != Unknown && (s.active.kind == Unknown || s.active.kind == kind)
    ensures KindMatches(r) && r.active == Active(s.active.key, kind)
  {
    if s.active.kind != Unknown then s
    else SetValue(s, s.active.key, if kind == ListKind then List([]) else Record(map[])).(active := Active(s.active.key, kind))
  }

  function AddItem(s: State, item: Option<Scalar>): State
    requires KindMatches(s) && s.active.Active? && s.active.kind != RecordKind
  {
    var key, ready := s.active.key, Opened(s, ListKind);
    match item
    case None => Report(ready, UnsupportedItem(key))
    case Some(scalar) => SetValue(ready, key, List(ready.values[key].items + [scalar]))
  }

  function AddEntry(s: State, sub: string, parsed: Option<Scalar>, syntax: Syntax): State
    requires KindMatches(s) && s.active.Active? && s.active.kind != ListKind
  {
    var key, ready := s.active.key, Opened(s, RecordKind);
    if UnsafeName(sub) then Report(ready, UnsafeMapKey(key, sub))
    else if !AcceptedMapValue(parsed, syntax) then Report(ready, RejectedMapValue(key, sub))
    else
      var entries := ready.values[key].entries;
      if sub in entries then Report(ready, DuplicateMapKey(key, sub))
      else SetValue(ready, key, Record(entries[sub := parsed.value]))
  }

  /** A nested line below an active container. */
  function NestedLine(s: State, a: Action, syntax: Syntax): State
    requires KindMatches(s) && s.active.Active?
  {
    var key, kind := s.active.key, s.active.kind;
    match a
    case BadItem => Report(s, InvalidItem(key))
    case Item(scalar) => if kind == RecordKind then Report(s, MixedContainer(key)) else AddItem(s, scalar)
    case BadEntry => Report(s, UnsupportedNested(key))
    case Entry(sub, parsed) =>
      if sub == "" then Report(s, UnsupportedNested(key))
      else if kind == ListKind then Report(s, MixedContainer(key))
      else AddEntry(s, sub, parsed, syntax)
    case _ => s
  }

  function Apply(s: State, a: Action, number: nat, syntax: Syntax): State
    requires KindMatches(s)
  {
    match a
    case Nothing => s
    case TabIndented => Abandon(s, TabIndentation(number))
    case BadTop => Abandon(s, UnsupportedLine(number))
    case Top(key, value) => TopLine(s, key, value)
    case _ => if s.active.NoContainer? then Report(s, OrphanLine(number)) else NestedLine(s, a, syntax)
  }

  // ---------- what every line keeps ----------

  lemma KeysAfterNew(s: State, t: State, key: string)
    requires KeysAgree(s) && key !in s.values && !UnsafeName(key)
    requires t.presentKeys == s.presentKeys + [key] && t.values.Keys == s.values.Keys + {key}
    ensures KeysAgree(t)
  {
    assert forall k :: k in t.values <==> k in t.values.Keys;
    assert forall k :: k in s.values <==> k in s.values.Keys;
  }

  lemma TopLineKeeps(s: State, key: string, value: TopValue, syntax: Syntax)
    requires Sound(s, syntax)
    ensures Sound(TopLine(s, key, value), syntax)
  {
    hide KeysAgree, UnsafeName, MapAccepted;
    var t := TopLine(s, key, value);
    if !UnsafeName(key) && key !in s.values {
      KeysAfterNew(s, t, key);
      EmptyMapAccepted(syntax);
    } else {
      SameKeys(s, t);
    }
  }

  lemma EmptyMapAccepted(syntax: Syntax)
    ensures MapAccepted(map[], syntax)
  {
  }

  lemma SameKeys(s: State, t: State)
    requires KeysAgree(s) && t.presentKeys == s.presentKeys && t.values.Keys == s.values.Keys
    ensures KeysAgree(t)
  {
    assert forall k :: k in t.values <==> k in t.values.Keys;
    assert forall k :: k in s.values <==> k in s.values.Keys;
  }

  lemma OpenedKeeps(s: State, kind: Kind, syntax: Syntax)
    requires Sound(s, syntax) && s.active.Active? && kind != Unknown && (s.active.kind == Unknown || s.active.kind == kind)
    ensures Sound(Opened(s, kind), syntax)
  {
    hide KeysAgree, MapAccepted;
    var t := Opened(s, kind);
    EmptyMapAccepted(syntax);
    assert t.values.Keys == s.values.Keys;
    SameKeys(s, t);
  }

  lemma AddItemKeeps(s: State, item: Option<Scalar>, syntax: Syntax)
    requires Sound(s, syntax) && s.active.Active? && s.active.kind != RecordKind
    ensures Sound(AddItem(s, item), syntax)
  {
    hide KeysAgree, MapAccepted, Opened;
    OpenedKeeps(s, ListKind, syntax);
    var ready, t := Opened(s, ListKind), AddItem(s, item);
    assert t.values.Keys == ready.values.Keys;
    SameKeys(ready, t);
  }

  lemma EntryAccepted(entries: map<string, Scalar>, sub: string, v: Scalar, syntax: Syntax)
    requires MapAccepted(entries, syntax) && sub != "" && !UnsafeName(sub) && AcceptedMapValue(Some(v), syntax)
    ensures MapAccepted(entries[sub := v], syntax)
  {
    hide UnsafeName, AcceptedMapValue;
  }

  lemma AddEntryKeeps(s: State, sub: string, parsed: Option<Scalar>, syntax: Syntax)
    requires Sound(s, syntax) && s.active.Active? && s.active.kind != ListKind && sub != ""
    ensures Sound(AddEntry(s, sub, parsed, syntax), syntax)
  {
    hide KeysAgree, Opened, UnsafeName, MapAccepted;
    OpenedKeeps(s, RecordKind, syntax);
    var ready, t := Opened(s, RecordKind), AddEntry(s, sub, parsed, syntax);
    assert t.values.Keys == ready.values.Keys;
    SameKeys(ready, t);
    if !UnsafeName(sub) && AcceptedMapValue(parsed, syntax) {
      EntryAccepted(ready.values[s.active.key].entries, sub, parsed.value, syntax);
    }
  }

  lemma NestedLineKeeps(s: State, a: Action, syntax: Syntax)
    requires Sound(s, syntax) && s.active.Active?
    ensures Sound(NestedLine(s, a, syntax), syntax)
  {
    hide AddItem, AddEntry, Sound, Report;
    var key, kind := s.active.key, s.active.kind;
    AbandonKeeps(s, syntax, InvalidItem(key));
    AbandonKeeps(s, syntax, MixedContainer(key));
    AbandonKeeps(s, syntax, UnsupportedNested(key));
    if a.Item? && kind != RecordKind { AddItemKeeps(s, a.scalar, syntax); }
    if a.Entry? && a.sub != "" && kind != ListKind { AddEntryKeeps(s, a.sub, a.parsed, syntax); }
  }

  /** Whatever a line says, kinds match stored values, present keys are the stored keys, and maps hold only accepted entries. */
  lemma LineKeeps(s: State, a: Action, number: nat, syntax: Syntax)
    requires Sound(s, syntax)
    ensures Sound(Apply(s, a, number, syntax), syntax)
  {
    hide TopLine, NestedLine, Sound, Report, Abandon;
    AbandonKeeps(s, syntax, TabIndentation(number));
    AbandonKeeps(s, syntax, UnsupportedLine(number));
    AbandonKeeps(s, syntax, OrphanLine(number));
    if a.Top? { TopLineKeeps(s, a.key, a.value, syntax); }
    if s.active.Active? { NestedLineKeeps(s, a, syntax); }
  }

  lemma AbandonKeeps(s: State, syntax: Syntax, d: Diagnostic)
    requires Sound(s, syntax)
    ensures Sound(Abandon(s, d), syntax) && Sound(Report(s, d), syntax)
  {
  }

  /** The lines before `n`, the first being the opening fence. */
  function ParseLines(lines: seq<Line>, n: nat, syntax: Syntax, lexer: Lexer): (s: State)
    requires n <= |lines|
    ensures Sound(s, syntax)
  {
    if n <= 1 then START
    else
      var before := ParseLines(lines, n - 1, syntax, lexer);
      var action := Classify(lines[n - 1].text, syntax, lexer);
      LineKeeps(before, action, n, syntax);
      Apply(before, action, n, syntax)
  }

  function ClosingFrom(lines: seq<Line>, i: nat): (r: Option<nat>)
    requires i <= |lines|
    ensures r.Some? ==> i <= r.value < |lines| && lines[r.value].text == FENCE
    ensures forall j :: i <= j < (if r.Some? then r.value else |lines|) ==> lines[j].text != FENCE
    decreases |lines| - i
  {
    if i == |lines| then None else if lines[i].text == FENCE then Some(i) else ClosingFrom(lines, i + 1)
  }

  /** parseBoundedFrontmatter. */
  function Parse(content: string, syntax: Syntax, lexer: Lexer): Parsed {
    var lines := LinesFrom(content, 0);
    if lines[0].text != FENCE then Parsed(false, false, map[], [], content, [])
    else
      match ClosingFrom(lines, 1)
      case None => Parsed(true, false, map[], [], content, [NotClosed])
      case Some(n) =>
        LinesCover(content, 0);
        assert Covers(content, StartOf(lines, n, 0), lines[n]);
        var s := ParseLines(lines, n, syntax, lexer);
        Parsed(true, true, s.values, Sort(s.presentKeys), content[lines[n].endOffset..], s.diagnostics)
  }

  /**
   For every content: the body is what follows the first closing fence (or all of the content), the
   present keys are exactly the value keys in order, and every map holds only accepted entries.
   */
  lemma ParseIsConsistent(content: string, syntax: Syntax, lexer: Lexer)
    ensures var r, lines := Parse(content, syntax, lexer), LinesFrom(content, 0);
            && |r.body| <= |content| && r.body == content[|content| - |r.body|..]
            && (r.closed <==> lines[0].text == FENCE && exists i :: 0 < i < |lines| && lines[i].text == FENCE)
            && (!r.closed ==> r.body == content && r.values == map[])
            && StrictlySorted(r.presentKeys) && (forall k :: k in r.presentKeys <==> k in r.values)
            && (forall k :: k in r.values ==> !UnsafeName(k) && (r.values[k].Record? ==> MapAccepted(r.values[k].entries, syntax)))
  {
    hide LinesFrom, UnsafeName, MapAccepted, Sort;
    var lines := LinesFrom(content, 0);
    if lines[0].text == FENCE && ClosingFrom(lines, 1).Some? {
      var n := ClosingFrom(lines, 1).value;
      LinesCover(content, 0);
      assert Covers(content, StartOf(lines, n, 0), lines[n]);
      KeysSorted(ParseLines(lines, n, syntax, lexer));
    }
  }

  lemma KeysSorted(s: State)
    requires KeysAgree(s)
    ensures StrictlySorted(Sort(s.presentKeys)) && forall k :: k in Sort(s.presentKeys) <==> k in s.values
  {
    hide Sort;
    SortDistinct(s.presentKeys, s.values.Keys);
  }

  // ---------- the parser itself ----------

  method CountLeadingSpaces(line: string) returns (count: nat)
    ensures count == LeadingSpaces(line)
  {
    count := 0;
    while count < |line| && line[count] == ' '
      invariant count <= |line|
      invariant LeadingSpaces(line) == count + LeadingSpaces(line[count..])
    {
      assert line[count..][1..] == line[count + 1..];
      count := count + 1;
    }
  }

  /** One nested line below an active container. */
  method ParseNestedLine(nested: string, s: State, syntax: Syntax, lexer: Lexer) returns (t: State)
    requires KindMatches(s) && s.active.Active? && nested != ""
    ensures t == NestedLine(s, NestedAction(nested, syntax, lexer), syntax)
  {
    hide ParseScalar, Trim, SplitKeyValue, UnsafeName;
    var values, diagnostics, key, kind := s.values, s.diagnostics, s.active.key, s.active.kind;
    if BeginsWith(nested, '-') {
      if |nested| == 1 || nested[1] != ' ' {
        return s.(diagnostics := diagnostics + [InvalidItem(key)]);
      }
      if kind == RecordKind {
        return s.(diagnostics := diagnostics + [MixedContainer(key)]);
      }
      if kind == Unknown {
        kind := ListKind;
        values := values[key := List([])];
      }
      var parsed := ParseScalar(lexer, Trim(nested[2..]));
      if parsed.None? {
        diagnostics := diagnostics + [UnsupportedItem(key)];
      } else {
        values := values[key := List(values[key].items + [parsed.value])];
      }
      return State(values, s.presentKeys, diagnostics, Active(key, kind));
    }
    var pair := SplitKeyValue(lexer, syntax, nested);
    if pair.None? || pair.value.0 == "" {
      return s.(diagnostics := diagnostics + [UnsupportedNested(key)]);
    }
    var sub := pair.value.0;
    if kind == ListKind {
      return s.(diagnostics := diagnostics + [MixedContainer(key)]);
    }
    if kind == Unknown {
      kind := RecordKind;
      values := values[key := Record(map[])];
    }
    var parsed := ParseScalar(lexer, pair.value.1);
    if UnsafeName(sub) {
      diagnostics := diagnostics + [UnsafeMapKey(key, sub)];
    } else if !AcceptedMapValue(parsed, syntax) {
      diagnostics := diagnostics + [RejectedMapValue(key, sub)];
    } else if sub in values[key].entries {
      diagnostics := diagnostics + [DuplicateMapKey(key, sub)];
    } else {
      values := values[key := Record(values[key].entries[sub := parsed.value])];
    }
    return State(values, s.presentKeys, diagnostics, Active(key, kind));
  }

  /** One line without indentation. */
  method ParseTopLine(raw: string, number: nat, s: State, syntax: Syntax, lexer: Lexer) returns (t: State)
    requires KindMatches(s)
    ensures t == Apply(s, TopAction(raw, syntax, lexer), number, syntax)
  {
    hide SplitKeyValue, ParseInline, UnsafeName;
    var pair := SplitKeyValue(lexer, syntax, raw);
    t := s.(active := NoContainer);
    if pair.None? {
      return t.(diagnostics := s.diagnostics + [UnsupportedLine(number)]);
    }
    var (key, rawValue) := pair.value;
    if UnsafeName(key) {
      return t.(diagnostics := s.diagnostics + [UnsafeKey(key)]);
    }
    if key in s.values {
      return t.(diagnostics := s.diagnostics + [DuplicateKey(key)]);
    }
    t := t.(presentKeys := s.presentKeys + [key]);
    if rawValue == "" {
      return t.(values := s.values[key := Single(Null)], active := Active(key, Unknown));
    }
    var parsed := ParseInline(lexer, syntax, rawValue);
    if parsed.None? {
      return t.(values := s.values[key := Single(Str(rawValue))], diagnostics := s.diagnostics + [UnsupportedValue(key)]);
    }
    return t.(values := s.values[key := Stored(Inline(parsed.value))]);
  }

  /** The body of the loop over lines. */
  method ParseLine(rawLine: string, number: nat, s: State, syntax: Syntax, lexer: Lexer) returns (t: State)
    requires KindMatches(s)
    ensures t == Apply(s, Classify(rawLine, syntax, lexer), number, syntax)
  {
    hide Trim, TrimStart, TopLine, TopAction, NestedLine, NestedAction, KindMatches, SplitKeyValue, ParseInline;
    if Skipped(rawLine) {
      return s;
    }
    var indentation := CountLeadingSpaces(rawLine);
    if indentation < |rawLine| && rawLine[indentation] == '\t' {
      return s.(diagnostics := s.diagnostics + [TabIndentation(number)], active := NoContainer);
    }
    if indentation == 0 {
      t := ParseTopLine(rawLine, number, s, syntax, lexer);
      return;
    }
    if s.active.NoContainer? {
      return s.(diagnostics := s.diagnostics + [OrphanLine(number)]);
    }
    t := ParseNestedLine(Trim(rawLine), s, syntax, lexer);
  }

  lemma NextLine(lines: seq<Line>, index: nat, syntax: Syntax, lexer: Lexer)
    requires 1 <= index < |lines|
    ensures var before := ParseLines(lines, index, syntax, lexer);
            && KindMatches(before)
            && ParseLines(lines, index + 1, syntax, lexer) ==
               Apply(before, Classify(lines[index].text, syntax, lexer), index + 1, syntax)
  {
    hide Apply, Classify;
  }

  lemma FirstLine(lines: seq<Line>, syntax: Syntax, lexer: Lexer)
    requires lines != []
    ensures ParseLines(lines, 1, syntax, lexer) == START
  {
  }

  /** parseBoundedFrontmatter. */
  method ParseBoundedFrontmatter(content: string, syntax: Syntax, lexer: Lexer) returns (r: Parsed)
    ensures r == Parse(content, syntax, lexer)
  {
    hide LinesFrom, Apply, Classify, ParseLines, KindMatches, CoverAll, Sort;
    var lines := SplitLinesWithOffsets(content);
    if lines[0].text != FENCE {
      return Parsed(false, false, map[], [], content, []);
    }
    var closing := ClosingFrom(lines, 1);
    if closing.None? {
      return Parsed(true, false, map[], [], content, [NotClosed]);
    }
    var s, index := START, 1;
    FirstLine(lines, syntax, lexer);
    while index < closing.value
      invariant 1 <= index <= closing.value
      invariant s == ParseLines(lines, index, syntax, lexer)
    {
      NextLine(lines, index, syntax, lexer);
      s := ParseLine(lines[index].text, index + 1, s, syntax, lexer);
      index := index + 1;
    }
    BodyOffset(content, closing.value);
    return Parsed(true, true, s.values, Sort(s.presentKeys), content[lines[closing.value].endOffset..], s.diagnostics);
  }

  lemma BodyOffset(content: string, n: nat)
    requires n < |LinesFrom(content, 0)|
    ensures LinesFrom(content, 0)[n].endOffset <= |content|
  {
    LinesCover(content, 0);
    assert Covers(content, StartOf(LinesFrom(content, 0), n, 0), LinesFrom(content, 0)[n]);
  }
}
