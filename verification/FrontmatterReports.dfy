/**
 What the bounded frontmatter parser refuses, and what it reports (source-frontmatter.ts): each refused
 line costs exactly its own diagnostic and leaves the values it does not concern as they were.
 */
module FrontmatterReports {
  import opened Common
  import opened Text
  import opened FrontmatterTokens
  import opened Frontmatter

  /** The line changed no value and reported this; `active` is the container lines may go on with. */
  predicate OnlyReported(s: State, t: State, d: Diagnostic, active: Container) {
    t.values == s.values && t.presentKeys == s.presentKeys && t.diagnostics == s.diagnostics + [d] && t.active == active
  }

  predicate Forbidden(key: string) {
    key in ["__proto__", "constructor", "prototype"]
  }

  lemma ForbiddenIs(key: string)
    ensures UnsafeName(key) <==> Forbidden(key)
  {
  }

  /** A line that starts a key, or should have. */
  lemma TopIsExact(s: State, a: Action, number: nat, syntax: Syntax)
    requires KindMatches(s)
    ensures a == Nothing ==> Apply(s, a, number, syntax) == s
    ensures a == TabIndented ==> OnlyReported(s, Apply(s, a, number, syntax), TabIndentation(number), NoContainer)
    ensures a == BadTop ==> OnlyReported(s, Apply(s, a, number, syntax), UnsupportedLine(number), NoContainer)
    ensures a.Top? && Forbidden(a.key) ==> OnlyReported(s, Apply(s, a, number, syntax), UnsafeKey(a.key), NoContainer)
    ensures a.Top? && !Forbidden(a.key) && a.key in s.values ==>
              OnlyReported(s, Apply(s, a, number, syntax), DuplicateKey(a.key), NoContainer)
  {
    hide UnsafeName, Forbidden;
    if a.Top? { ForbiddenIs(a.key); }
  }

  /** A new key: what is stored for it, what may follow below it, and the report of a value that cannot be read. */
  lemma NewKeyIsExact(s: State, key: string, value: TopValue, number: nat, syntax: Syntax)
    requires KindMatches(s) && !Forbidden(key) && key !in s.values
    ensures var t := Apply(s, Top(key, value), number, syntax);
            && t.presentKeys == s.presentKeys + [key]
            && (forall other :: other != key ==>
                  (other in t.values <==> other in s.values) && (other in s.values ==> t.values[other] == s.values[other]))
            && key in t.values
            && match value
               case NoValue =>
                 t.values[key] == Single(Null) && t.active == Active(key, Unknown) && t.diagnostics == s.diagnostics
               case Unsupported(raw) =>
                 && t.values[key] == Single(Str(raw)) && t.active == NoContainer
                 && t.diagnostics == s.diagnostics + [UnsupportedValue(key)]
               case Inline(One(scalar)) =>
                 t.values[key] == Single(scalar) && t.active == NoContainer && t.diagnostics == s.diagnostics
               case Inline(Many(items)) =>
                 t.values[key] == List(items) && t.active == NoContainer && t.diagnostics == s.diagnostics
               case Inline(NoEntries) =>
                 t.values[key] == Record(map[]) && t.active == NoContainer && t.diagnostics == s.diagnostics
  {
    hide UnsafeName, Forbidden;
    ForbiddenIs(key);
  }

  predicate Nested(a: Action) {
    a.BadItem? || a.Item? || a.BadEntry? || a.Entry?
  }

  /** What is under the key after it was told to be a list or a map, before anything is added. */
  function OpenedAs(s: State, v: Value): Value
    requires s.active.Active? && s.active.key in s.values
  {
    if s.active.kind == Unknown then v else s.values[s.active.key]
  }

  /** An indented line that is refused: it reports why, and at most makes the empty container it belongs to. */
  lemma RefusedNestedLine(s: State, a: Action, number: nat, syntax: Syntax)
    requires KindMatches(s) && Nested(a)
    ensures s.active.NoContainer? ==> OnlyReported(s, Apply(s, a, number, syntax), OrphanLine(number), NoContainer)
    ensures s.active.Active? ==>
              var t, key, kind := Apply(s, a, number, syntax), s.active.key, s.active.kind;
              && (a.BadItem? ==> OnlyReported(s, t, InvalidItem(key), s.active))
              && (a.BadEntry? || (a.Entry? && a.sub == "") ==> OnlyReported(s, t, UnsupportedNested(key), s.active))
              && (a.Item? && kind == RecordKind ==> OnlyReported(s, t, MixedContainer(key), s.active))
              && (a.Entry? && a.sub != "" && kind == ListKind ==> OnlyReported(s, t, MixedContainer(key), s.active))
  {
    hide UnsafeName, AcceptedMapValue, Opened;
  }

  ghost predicate Agrees(s: State, t: State, key: string) {
    && t.presentKeys == s.presentKeys
    && forall other :: other != key ==>
         (other in t.values <==> other in s.values) && (other in s.values ==> t.values[other] == s.values[other])
  }

  /** An item below a key that holds, or may still hold, a list. */
  lemma ItemIsExact(s: State, item: Option<Scalar>, number: nat, syntax: Syntax)
    requires KindMatches(s) && s.active.Active? && s.active.kind != RecordKind
    ensures var t, key := Apply(s, Item(item), number, syntax), s.active.key;
            && Agrees(s, t, key) && t.active == Active(key, ListKind) && key in t.values
            && OpenedAs(s, List([])).List?
            && var items := OpenedAs(s, List([])).items;
               match item
               case None => t.values[key] == List(items) && t.diagnostics == s.diagnostics + [UnsupportedItem(key)]
               case Some(scalar) => t.values[key] == List(items + [scalar]) && t.diagnostics == s.diagnostics
  {
  }

  /** An entry below a key that holds, or may still hold, a map: a forbidden name, a value of the wrong kind and a
      name given twice are reported, in this order, and everything else is stored. */
  lemma EntryIsExact(s: State, sub: string, parsed: Option<Scalar>, number: nat, syntax: Syntax)
    requires KindMatches(s) && s.active.Active? && s.active.kind != ListKind && sub != ""
    ensures var t, key := Apply(s, Entry(sub, parsed), number, syntax), s.active.key;
            && Agrees(s, t, key) && t.active == Active(key, RecordKind) && key in t.values
            && OpenedAs(s, Record(map[])).Record?
            && var entries := OpenedAs(s, Record(map[])).entries;
               var fits := if syntax.stringValues then parsed.Some? && parsed.value.Str?
                           else parsed.Some? && parsed.value != Null;
               if Forbidden(sub) then
                 t.values[key] == Record(entries) && t.diagnostics == s.diagnostics + [UnsafeMapKey(key, sub)]
               else if !fits then
                 t.values[key] == Record(entries) && t.diagnostics == s.diagnostics + [RejectedMapValue(key, sub)]
               else if sub in entries then
                 t.values[key] == Record(entries) && t.diagnostics == s.diagnostics + [DuplicateMapKey(key, sub)]
               else t.values[key] == Record(entries[sub := parsed.value]) && t.diagnostics == s.diagnostics
  {
    hide UnsafeName, Forbidden;
    ForbiddenIs(sub);
  }

  // ---------- what a line is ----------

  /** Blank lines and lines whose first visible character is "#" say nothing. */
  lemma BlankLineSaysNothing(raw: string, syntax: Syntax, lexer: Lexer)
    requires forall i :: 0 <= i < |raw| ==> Blank(raw[i])
    ensures Classify(raw, syntax, lexer) == Nothing
  {
    hide Blank, TopAction, NestedAction, TrimEnd;
    var r := TrimStart(raw);
    assert r == raw[|raw| - |r|..];
    assert r == "";
    assert TrimEnd("") == "";
  }

  lemma CommentLineSaysNothing(raw: string, k: nat, syntax: Syntax, lexer: Lexer)
    requires k < |raw| && raw[k] == '#' && forall i :: 0 <= i < k ==> Blank(raw[i])
    ensures Classify(raw, syntax, lexer) == Nothing
  {
    HashIsNotBlank();
    hide Blank, TopAction, NestedAction, TrimEnd;
    var r := TrimStart(raw);
    assert r == raw[|raw| - |r|..];
    assert |r| == |raw| - k;
  }

  lemma HashIsNotBlank()
    ensures !Blank('#')
  {
  }

  lemma {:induction false} SpacesCounted(raw: string, n: nat)
    requires n <= |raw| && (forall i :: 0 <= i < n ==> raw[i] == ' ') && (n < |raw| ==> raw[n] != ' ')
    ensures LeadingSpaces(raw) == n
  {
    if n > 0 { SpacesCounted(raw[1..], n - 1); }
  }

  /** A line that says something: a tab in its indentation is refused, no indentation makes it a key, any other an
      item or an entry of the key above. */
  lemma LineIs(raw: string, n: nat, syntax: Syntax, lexer: Lexer)
    requires n < |raw| && (forall i :: 0 <= i < n ==> raw[i] == ' ') && raw[n] != ' ' && raw[n] != '#'
    requires raw[n] == '\t' || !Blank(raw[n])
    requires Trim(raw) != "" && !BeginsWith(TrimStart(raw), '#')
    ensures Classify(raw, syntax, lexer) ==
            if raw[n] == '\t' then TabIndented
            else if n == 0 then TopAction(raw, syntax, lexer)
            else NestedAction(Trim(raw), syntax, lexer)
  {
    hide Blank, TrimStart, TrimEnd, Trim, TopAction, NestedAction;
    SpacesCounted(raw, n);
  }

  /** A dash must be followed by a space; a line without a colon, or that begins with one, is no entry. */
  lemma NestedIs(nested: string, syntax: Syntax, lexer: Lexer)
    ensures |nested| > 0 && nested[0] == '-' ==>
              NestedAction(nested, syntax, lexer) ==
              if |nested| > 1 && nested[1] == ' ' then Item(ParseScalar(lexer, Trim(nested[2..]))) else BadItem
    ensures (|nested| == 0 || nested[0] != '-') && (':' !in nested || nested[0] == ':') ==>
              NestedAction(nested, syntax, lexer) == BadEntry
    ensures ':' !in nested || nested[0] == ':' ==> TopAction(nested, syntax, lexer) == BadTop
  {
    hide ParseScalar, Trim, MappingKey, ParseInline;
    ColonIsFirst(nested);
  }

  lemma {:induction false} ColonIsFirst(line: string)
    ensures ':' !in line <==> ColonAt(line) == |line|
    ensures forall i :: 0 <= i < ColonAt(line) ==> line[i] != ':'
  {
    if line != "" && line[0] != ':' {
      ColonIsFirst(line[1..]);
      assert line == [line[0]] + line[1..];
    }
  }

  // ---------- the fences ----------

  /** Without an opening fence there is no frontmatter, and without a closing one it is reported; the text is the body. */
  lemma MissingFence(content: string, syntax: Syntax, lexer: Lexer)
    ensures var lines := LinesFrom(content, 0);
            && (lines[0].text != "---" ==> Parse(content, syntax, lexer) == Parsed(false, false, map[], [], content, []))
            && (lines[0].text == "---" && (forall i :: 0 < i < |lines| ==> lines[i].text != "---") ==>
                  Parse(content, syntax, lexer) == Parsed(true, false, map[], [], content, [NotClosed]))
  {
    hide LinesFrom, ParseLines, Sort, Covers, CoverAll;
  }

  /** Otherwise the frontmatter is the lines between the opening fence and the first that closes it. */
  lemma ClosedAt(content: string, n: nat, syntax: Syntax, lexer: Lexer)
    requires var lines := LinesFrom(content, 0);
             && 0 < n < |lines| && lines[0].text == "---" && lines[n].text == "---"
             && forall i :: 0 < i < n ==> lines[i].text != "---"
    ensures var s, r := ParseLines(LinesFrom(content, 0), n, syntax, lexer), Parse(content, syntax, lexer);
            r.hasFrontmatter && r.closed && r.values == s.values && r.diagnostics == s.diagnostics
  {
    hide LinesFrom, ParseLines, Sort, Covers, CoverAll;
    assert ClosingFrom(LinesFrom(content, 0), 1) == Some(n);
  }

  // ---------- characters ----------

  lemma CharactersAre(c: char)
    ensures QuoteMark(c) <==> c in "'\""
    ensures AsciiWhitespace(c) <==> c in " \t\n\r"
  {
    assert "'\"" == ['\'', '"'] && " \t\n\r" == [' ', '\t', '\n', '\r'];
  }

  /** A number sign inside a word begins no comment. */
  lemma HashInsideWord(v: string, w: string)
    requires v != "" && v[|v| - 1] !in " \t\n\r" && '#' !in v && '\'' !in v && '"' !in v && '#' !in w
    ensures StripComment(v + "#" + w) == v + "#" + w
  {
    CharactersAre(v[|v| - 1]);
    NoCommentFrom(v, w, 0);
  }

  lemma {:induction false} NoCommentFrom(v: string, w: string, i: nat)
    requires v != "" && !AsciiWhitespace(v[|v| - 1]) && '#' !in v && '\'' !in v && '"' !in v && '#' !in w && i <= |v|
    ensures CommentAt(v + "#" + w, i, None).None?
    decreases |v| - i
  {
    var text := v + "#" + w;
    if i < |v| {
      assert text[i] == v[i] && v[i] in v;
      NoCommentFrom(v, w, i + 1);
    } else {
      assert text[i] == '#' && text[i - 1] == v[|v| - 1];
      NothingFrom(v, w, i + 1, None);
    }
  }

  lemma {:induction false} NothingFrom(v: string, w: string, i: nat, quote: Option<char>)
    requires |v| < i <= |v| + 1 + |w| && '#' !in w
    ensures CommentAt(v + "#" + w, i, quote).None?
    decreases |v| + 1 + |w| - i
  {
    var text := v + "#" + w;
    if i < |text| {
      assert text[i] == w[i - |v| - 1] && text[i] in w;
      if quote.Some? {
        NothingFrom(v, w, i + 1, if text[i] == quote.value && (i == 0 || text[i - 1] != '\\') then None else quote);
      } else {
        NothingFrom(v, w, i + 1, if QuoteMark(text[i]) then Some(text[i]) else None);
      }
    }
  }
}
