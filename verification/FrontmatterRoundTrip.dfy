/**
 What the bounded frontmatter parser makes of a text that says something (source-frontmatter.ts):
 how every scalar reads, and that a document written plainly reads back as it was.
 */
module FrontmatterRoundTrip {
  import opened Common
  import opened Text
  import opened FrontmatterTokens
  import opened Frontmatter

  // ---------- comments and blanks ----------

  lemma {:induction false} NoHashNoComment(v: string, i: nat, quote: Option<char>)
    requires i <= |v| && '#' !in v
    ensures CommentAt(v, i, quote).None?
    decreases |v| - i
  {
    if i < |v| {
      var c := v[i];
      assert c in v;
      if quote.Some? {
        NoHashNoComment(v, i + 1, if c == quote.value && (i == 0 || v[i - 1] != '\\') then None else quote);
      } else {
        NoHashNoComment(v, i + 1, if QuoteMark(c) then Some(c) else None);
      }
    }
  }

  lemma PlainKeeps(v: string)
    requires TrimmedText(v) && '#' !in v
    ensures StripComment(Trim(v)) == v
  {
    TrimmedIsFixed(v);
    NoHashNoComment(v, 0, None);
  }

  /** A comment is taken off after white space, together with the white space before it. */
  lemma CommentIsStripped(v: string, comment: string)
    requires TrimmedText(v) && '#' !in v && '\'' !in v && '"' !in v
    ensures StripComment(v + " #" + comment) == v
  {
    var text := v + " #" + comment;
    CommentFound(v, comment, 0);
    assert text[..|v| + 1] == v + " ";
    TrimEndBlank(v);
  }

  lemma {:induction false} CommentFound(v: string, comment: string, i: nat)
    requires i <= |v| && '#' !in v && '\'' !in v && '"' !in v
    ensures CommentAt(v + " #" + comment, i, None) == Some(|v| + 1)
    decreases |v| - i
  {
    var text := v + " #" + comment;
    if i < |v| {
      assert text[i] == v[i] && v[i] in v;
      CommentFound(v, comment, i + 1);
    } else {
      assert text[|v|] == ' ' && text[|v| + 1] == '#';
      assert CommentAt(text, |v| + 1, None) == Some(|v| + 1);
    }
  }

  lemma TrimEndBlank(v: string)
    requires TrimmedText(v)
    ensures TrimEnd(v + " ") == v
  {
    assert (v + " ")[..|v|] == v;
    assert TrimEnd(v) == v;
  }

  lemma BlankDropped(c: char, v: string)
    requires Blank(c)
    ensures TrimStart([c] + v) == TrimStart(v)
  {
    hide Blank;
    assert ([c] + v)[1..] == v;
  }

  lemma TrimBlankFirst(v: string)
    requires TrimmedText(v)
    ensures Trim(" " + v) == v && TrimStart("  " + v) == v && Trim("  " + v) == v
  {
    SpaceIsBlank();
    hide Blank, TrimStart, TrimEnd, Trim;
    StartAndEnd(v);
    BlankDropped(' ', v);
    BlankDropped(' ', " " + v);
    assert [' '] + v == " " + v && [' '] + (" " + v) == "  " + v;
    TrimIs(" " + v);
    TrimIs("  " + v);
  }

  lemma SpaceIsBlank()
    ensures Blank(' ')
  {
  }

  lemma TrimIs(v: string)
    ensures Trim(v) == TrimEnd(TrimStart(v))
  {
  }

  lemma StartAndEnd(v: string)
    requires TrimmedText(v)
    ensures TrimStart(v) == v && TrimEnd(v) == v
  {
    hide Blank;
  }

  // ---------- quotation ----------

  /** Every apostrophe twice. */
  function Double(t: string): string {
    if t == "" then "" else (if t[0] == '\'' then "''" else [t[0]]) + Double(t[1..])
  }

  function Quoted(t: string): string {
    "'" + Double(t) + "'"
  }

  lemma {:induction false} UndoubleDouble(t: string)
    ensures Undouble(Double(t)) == t
  {
    if t != "" {
      UndoubleDouble(t[1..]);
      var d := Double(t);
      if t[0] == '\'' {
        assert d[2..] == Double(t[1..]);
      } else {
        assert d[1..] == Double(t[1..]) && d[0] == t[0];
      }
    }
  }

  lemma {:induction false} DoubleMembers(t: string, c: char)
    ensures c in Double(t) ==> c in t
  {
    if t != "" { DoubleMembers(t[1..], c); }
  }

  /** Inside the apostrophes nothing starts a comment when no backslash hides an apostrophe. */
  lemma {:induction false} QuotedHasNoComment(v: string, i: nat, t: string)
    requires 0 < i <= |v| && v[i..] == Double(t) + "'" && '\\' !in t && v[i - 1] != '\\'
    ensures CommentAt(v, i, Some('\'')).None?
    decreases |t|
  {
    assert v[i] == v[i..][0];
    if t == "" {
      assert |v[i..]| == 1;
      assert CommentAt(v, i + 1, None).None?;
    } else if t[0] == '\'' {
      assert v[i + 1] == v[i..][1];
      assert v[i + 2..] == v[i..][2..] == Double(t[1..]) + "'";
      assert v[i] == '\'' && v[i + 1] == '\'';
      QuotedHasNoComment(v, i + 2, t[1..]);
      assert CommentAt(v, i + 1, None) == CommentAt(v, i + 2, Some('\''));
    } else {
      assert v[i + 1..] == v[i..][1..] == Double(t[1..]) + "'";
      assert t[0] in t && v[i] == t[0];
      QuotedHasNoComment(v, i + 1, t[1..]);
    }
  }

  lemma QuotedKeeps(t: string)
    requires '\\' !in t || '#' !in t
    ensures TrimmedText(Quoted(t)) && StripComment(Trim(Quoted(t))) == Quoted(t)
    ensures Inner(Quoted(t)) == Double(t)
  {
    hide Trim, TrimStart, TrimEnd, TrimmedText, CommentAt, Double;
    var v := Quoted(t);
    QuotedIsTrimmed(t);
    if '#' !in t {
      DoubleMembers(t, '#');
      PlainKeeps(v);
    } else {
      TrimmedIsFixed(v);
      assert v[1..] == Double(t) + "'";
      QuotedHasNoComment(v, 1, t);
      OpeningQuote(v);
    }
  }

  lemma QuotedIsTrimmed(t: string)
    ensures TrimmedText(Quoted(t)) && |Quoted(t)| >= 2 && Quoted(t)[0] == '\'' == Quoted(t)[|Quoted(t)| - 1]
  {
    hide Double;
  }

  lemma OpeningQuote(v: string)
    requires |v| > 0 && v[0] == '\''
    ensures CommentAt(v, 0, None) == CommentAt(v, 1, Some('\''))
  {
  }

  // ---------- how scalars read ----------

  /** The words that stand for null and the two truth values, and the empty text. */
  lemma WordsRead(lexer: Lexer)
    ensures ParseScalar(lexer, "true") == Some(Bool(true)) && ParseScalar(lexer, "false") == Some(Bool(false))
    ensures ParseScalar(lexer, "null") == Some(Null) && ParseScalar(lexer, "~") == Some(Null)
    ensures ParseScalar(lexer, "") == Some(Str(""))
  {
    hide StripComment, Trim, TrimmedText, Undouble;
    WordsArePlain();
    PlainKeeps("true");
    PlainKeeps("false");
    PlainKeeps("null");
    PlainKeeps("~");
    assert "true"[0] == 't' && "false"[0] == 'f' && "null"[0] == 'n' && "~"[0] == '~';
  }

  lemma WordsArePlain()
    ensures TrimmedText("true") && TrimmedText("false") && TrimmedText("null") && TrimmedText("~")
    ensures StripComment(Trim("")) == ""
  {
    WordEndsAreNotBlank();
    hide Blank, TrimStart, TrimEnd, CommentAt;
    NothingIsPlain();
  }

  lemma WordEndsAreNotBlank()
    ensures !Blank('t') && !Blank('e') && !Blank('f') && !Blank('n') && !Blank('l') && !Blank('~')
  {
  }

  lemma NothingIsPlain()
    ensures StripComment(Trim("")) == ""
  {
    hide Blank;
    assert TrimStart("") == "" && TrimEnd("") == "" && CommentAt("", 0, None) == None;
  }

  predicate Word(t: string) {
    t == "" || t == "null" || t == "~" || t == "true" || t == "false"
  }

  /** What a text without comment or blanks around it reads as when it is none of the words. */
  lemma TextReads(lexer: Lexer, t: string)
    requires TrimmedText(t) && '#' !in t && !Word(t)
    ensures lexer.isNumber(t) ==> ParseScalar(lexer, t) == Some(Num(t))
    ensures !lexer.isNumber(t) && (t[0] == '"' || t[|t| - 1] == '"') ==>
              ParseScalar(lexer, t) ==
              if t[0] == '"' && t[|t| - 1] == '"' && lexer.json(t).Some? then Some(Str(lexer.json(t).value)) else None
    ensures !lexer.isNumber(t) && t[0] != '"' && t[|t| - 1] != '"' && (t[0] == '\'' <==> t[|t| - 1] != '\'') ==>
              ParseScalar(lexer, t).None?
    ensures !lexer.isNumber(t) && t[0] == '\'' && t[|t| - 1] == '\'' ==>
              ParseScalar(lexer, t) == Some(Str(if |t| == 1 then "" else Undouble(t[1..|t| - 1])))
    ensures !lexer.isNumber(t) && t[0] in "|>{" && t[|t| - 1] !in "'\"" ==> ParseScalar(lexer, t).None?
    ensures !lexer.isNumber(t) && t[0] !in "'\"|>{" && t[|t| - 1] !in "'\"" ==> ParseScalar(lexer, t) == Some(Str(t))
  {
    hide StripComment, Trim, TrimmedText, Undouble;
    PlainKeeps(t);
    UndoubleNothing();
    MarksIn(t[0]);
    MarksIn(t[|t| - 1]);
  }

  lemma UndoubleNothing()
    ensures Undouble("") == ""
  {
  }

  lemma MarksIn(c: char)
    ensures c in "|>{" <==> c == '|' || c == '>' || c == '{'
    ensures c in "'\"" <==> c == '\'' || c == '"'
    ensures c in "'\"|>{" <==> c in "'\"" || c in "|>{"
  {
    assert "|>{" == ['|', '>', '{'] && "'\"" == ['\'', '"'] && "'\"|>{" == ['\'', '"', '|', '>', '{'];
  }

  /** Text in apostrophes, each apostrophe in it doubled, reads as the text. */
  lemma QuotedReads(lexer: Lexer, t: string)
    requires ('\\' !in t || '#' !in t) && !lexer.isNumber(Quoted(t))
    ensures ParseScalar(lexer, Quoted(t)) == Some(Str(t))
  {
    hide StripComment, Trim, Undouble, Inner;
    QuotedKeeps(t);
    UndoubleDouble(t);
    assert Quoted(t)[0] == '\'' && Quoted(t)[|Quoted(t)| - 1] == '\'';
    assert "null"[0] == 'n' && "true"[0] == 't' && "false"[0] == 'f' && "~"[0] == '~';
  }

  // ---------- a plain way to write scalars ----------

  function Written(s: Scalar): string {
    match s
    case Str(t) => Quoted(t)
    case Num(t) => t
    case Bool(b) => if b then "true" else "false"
    case Null => "null"
  }

  /** A scalar that this writing can carry: text without a hidden apostrophe, and a number that looks like one. */
  predicate Writable(lexer: Lexer, s: Scalar) {
    match s
    case Str(t) => ('\\' !in t || '#' !in t) && '\n' !in t && !lexer.isNumber(Quoted(t))
    case Num(t) => TrimmedText(t) && '#' !in t && '\n' !in t && lexer.isNumber(t) && !Word(t) && t[0] != '[' && t != "{}"
    case _ => true
  }

  lemma WrittenReads(lexer: Lexer, s: Scalar)
    requires Writable(lexer, s)
    ensures ParseScalar(lexer, Written(s)) == Some(s)
    ensures TrimmedText(Written(s)) && StripComment(Trim(Written(s))) == Written(s) && Trim(Written(s)) == Written(s)
  {
    hide ParseScalar, StripComment, Trim, Quoted, TrimmedText;
    WordsRead(lexer);
    WordsArePlain();
    match s
    case Str(t) =>
      QuotedReads(lexer, t);
      QuotedKeeps(t);
      TrimmedIsFixed(Quoted(t));
    case Num(t) =>
      TextReads(lexer, t);
      PlainKeeps(t);
      TrimmedIsFixed(t);
    case Bool(b) =>
      PlainKeeps("true");
      PlainKeeps("false");
      TrimmedIsFixed("true");
      TrimmedIsFixed("false");
    case Null =>
      PlainKeeps("null");
      TrimmedIsFixed("null");
  }

  lemma WrittenIsInline(lexer: Lexer, syntax: Syntax, s: Scalar)
    requires Writable(lexer, s)
    ensures ParseInline(lexer, syntax, Written(s)) == Some(One(s))
  {
    hide ParseScalar, StripComment, Trim, Quoted, TrimmedText, SplitTokens, ParseAll, Inner;
    WrittenReads(lexer, s);
    NotBrackets(lexer, s);
  }

  lemma NotBrackets(lexer: Lexer, s: Scalar)
    requires Writable(lexer, s)
    ensures !BeginsWith(Written(s), '[') && Written(s) != "{}" && Written(s) != ""
  {
    hide TrimmedText, Double;
    assert "{}"[0] == '{';
    if s.Str? { assert Quoted(s.text)[0] == '\''; }
  }

  /** A list in brackets reads as its tokens, each by itself, and as nothing when one of them cannot be read. */
  lemma {:induction false} TokensReadEach(lexer: Lexer, tokens: seq<string>)
    ensures match ParseAll(lexer, tokens)
            case Some(items) =>
              |items| == |tokens| && forall i :: 0 <= i < |tokens| ==> ParseScalar(lexer, tokens[i]) == Some(items[i])
            case None => exists i :: 0 <= i < |tokens| && ParseScalar(lexer, tokens[i]).None?
    decreases |tokens|
  {
    hide ParseScalar;
    if tokens != [] {
      var n := |tokens| - 1;
      TokensReadEach(lexer, tokens[..n]);
      if ParseAll(lexer, tokens[..n]).None? {
        var i :| 0 <= i < n && ParseScalar(lexer, tokens[..n][i]).None?;
        assert tokens[i] == tokens[..n][i];
      }
    }
  }

  lemma BracketsRead(lexer: Lexer, syntax: Syntax, inner: string)
    requires '#' !in inner
    ensures var text := "[" + inner + "]";
            ParseInline(lexer, syntax, text) ==
            match ParseAll(lexer, SplitTokens(inner, syntax.balancedLists))
            case Some(items) => Some(Many(items))
            case None => None
    ensures ParseInline(lexer, syntax, "{}") == Some(NoEntries)
  {
    hide ParseScalar, StripComment, Trim, TrimmedText, SplitTokens, ParseAll;
    var text := "[" + inner + "]";
    BracketsArePlain(inner);
    PlainKeeps(text);
    PlainKeeps("{}");
    assert text[1..|text| - 1] == inner;
  }

  lemma BracketsArePlain(inner: string)
    ensures TrimmedText("[" + inner + "]") && TrimmedText("{}")
  {
  }

  // ---------- keys ----------

  /** A key that is written as it is. */
  predicate KeyText(key: string, syntax: Syntax) {
    && TrimmedText(key) && ':' !in key && '\n' !in key && key[0] != '#' && !UnsafeName(key)
    && (syntax.quotedKeys ==> key[0] !in "'\"" && key[|key| - 1] !in "'\"")
  }

  lemma {:induction false} ColonAfter(key: string, rest: string)
    requires ':' !in key
    ensures ColonAt(key + ":" + rest) == |key|
  {
    var line := key + ":" + rest;
    if key != "" {
      assert line[0] == key[0] && key[0] in key;
      assert line[1..] == key[1..] + ":" + rest;
      ColonAfter(key[1..], rest);
    }
  }

  lemma KeyIsKept(lexer: Lexer, syntax: Syntax, key: string)
    requires KeyText(key, syntax)
    ensures (if syntax.quotedKeys then MappingKey(lexer, key) else Some(Trim(key))) == Some(key)
  {
    hide Blank, TrimStart, TrimEnd, Trim, ParseScalar, UnsafeName, TrimmedText;
    TrimmedIsFixed(key);
    HasEnds(key);
    MarksIn(key[0]);
    MarksIn(key[|key| - 1]);
  }

  /** Where keys may be quoted, a key in apostrophes is the text in them, which must not be empty. */
  lemma QuotedKeyReads(lexer: Lexer, t: string)
    requires ('\\' !in t || '#' !in t) && !lexer.isNumber(Quoted(t))
    ensures MappingKey(lexer, Quoted(t)) == if t == "" then None else Some(t)
  {
    hide TrimmedText, Trim, ParseScalar, Quoted;
    QuotedIsTrimmed(t);
    TrimmedIsFixed(Quoted(t));
    QuotedReads(lexer, t);
  }

  /** Between quotation marks a key is what JSON reads there. */
  lemma JsonKeyReads(lexer: Lexer, key: string)
    requires TrimmedText(key) && '#' !in key && !lexer.isNumber(key) && key[0] == '"' == key[|key| - 1]
    ensures MappingKey(lexer, key) == if lexer.json(key) == Some("") then None else lexer.json(key)
  {
    hide TrimmedText, Trim, ParseScalar;
    HasEnds(key);
    TrimmedIsFixed(key);
    assert "null"[0] == 'n' && "true"[0] == 't' && "false"[0] == 'f' && "~"[0] == '~';
    TextReads(lexer, key);
  }

  lemma HasEnds(key: string)
    requires TrimmedText(key)
    ensures key != ""
  {
  }

  lemma KeyReads(lexer: Lexer, syntax: Syntax, key: string, value: string)
    requires KeyText(key, syntax) && (value == "" || (value[0] == ' ' && TrimmedText(value[1..])))
    ensures SplitKeyValue(lexer, syntax, key + ":" + value) == Some((key, if value == "" then "" else value[1..]))
  {
    hide TrimmedText, Trim, MappingKey, UnsafeName, ColonAt;
    var line := key + ":" + value;
    HasEnds(key);
    ColonAfter(key, value);
    assert line[..|key|] == key && line[|key| + 1..] == value;
    KeyIsKept(lexer, syntax, key);
    EmptyTrims();
    if value != "" {
      assert value == " " + value[1..];
      TrimBlankFirst(value[1..]);
    }
  }

  lemma EmptyTrims()
    ensures Trim("") == ""
  {
    hide Blank;
    assert TrimStart("") == "" && TrimEnd("") == "";
  }

  // ---------- lines ----------

  lemma TopLineReads(lexer: Lexer, syntax: Syntax, key: string, value: string)
    requires KeyText(key, syntax) && (value == "" || (value[0] == ' ' && TrimmedText(value[1..])))
    ensures Classify(key + ":" + value, syntax, lexer) == TopAction(key + ":" + value, syntax, lexer)
  {
    SpaceIsBlank();
    TabIsBlank();
    hide Blank, TrimEnd, TopAction, NestedAction, UnsafeName;
    var raw := key + ":" + value;
    assert raw[0] == key[0];
    assert TrimStart(raw) == raw;
    NotOnlyBlanks(raw);
  }

  lemma TabIsBlank()
    ensures Blank('\t')
  {
  }

  lemma NotOnlyBlanks(v: string)
    requires v != "" && !Blank(v[0])
    ensures Trim(v) != ""
  {
    hide Blank;
    assert TrimStart(v) == v;
    var r := TrimEnd(v);
  }

  lemma NestedLineReads(lexer: Lexer, syntax: Syntax, nested: string)
    requires TrimmedText(nested) && nested[0] != '#'
    ensures Classify("  " + nested, syntax, lexer) == NestedAction(nested, syntax, lexer)
  {
    SpaceIsBlank();
    TabIsBlank();
    hide Blank, TrimStart, TrimEnd, Trim, TopAction, NestedAction;
    TrimBlankFirst(nested);
    var raw := "  " + nested;
    assert raw[0] == ' ' && raw[1..][0] == ' ' && raw[1..][1..] == nested && raw[2] == nested[0];
    assert LeadingSpaces(nested) == 0;
    assert LeadingSpaces(raw) == 2;
  }

  // ---------- documents ----------

  /** One key with its value; lists and maps are written below the key. */
  datatype Block =
    | ScalarBlock(key: string, scalar: Scalar)
    | ListBlock(key: string, items: seq<Scalar>)
    | RecordBlock(key: string, entries: seq<(string, Scalar)>)

  function MapOf(entries: seq<(string, Scalar)>): map<string, Scalar> {
    if entries == [] then map[]
    else
      var last := entries[|entries| - 1];
      MapOf(entries[..|entries| - 1])[last.0 := last.1]
  }

  /** A key with nothing below it stands for null. */
  function ValueOf(b: Block): Value {
    match b
    case ScalarBlock(_, scalar) => Single(scalar)
    case ListBlock(_, items) => if items == [] then Single(Null) else List(items)
    case RecordBlock(_, entries) => if entries == [] then Single(Null) else Record(MapOf(entries))
  }

  function LinesOf(b: Block): (lines: seq<string>)
    ensures |lines| > 0
  {
    match b
    case ScalarBlock(key, scalar) => [key + ":" + (" " + Written(scalar))]
    case ListBlock(key, items) => [key + ":" + ""] + ItemLines(items)
    case RecordBlock(key, entries) => [key + ":" + ""] + EntryLines(entries)
  }

  function ItemLines(items: seq<Scalar>): seq<string> {
    seq(|items|, i requires 0 <= i < |items| => "  " + ("- " + Written(items[i])))
  }

  function EntryLines(entries: seq<(string, Scalar)>): seq<string> {
    seq(|entries|, i requires 0 <= i < |entries| => "  " + (entries[i].0 + ":" + (" " + Written(entries[i].1))))
  }

  predicate GoodEntries(entries: seq<(string, Scalar)>, syntax: Syntax, lexer: Lexer) {
    && (forall i :: 0 <= i < |entries| ==>
          && KeyText(entries[i].0, syntax) && entries[i].0[0] != '-' && Writable(lexer, entries[i].1)
          && (if syntax.stringValues then entries[i].1.Str? else !entries[i].1.Null?))
    && (forall i, j :: 0 <= i < j < |entries| ==> entries[i].0 != entries[j].0)
  }

  predicate GoodBlock(b: Block, syntax: Syntax, lexer: Lexer) {
    && KeyText(b.key, syntax)
    && match b
       case ScalarBlock(_, scalar) => Writable(lexer, scalar)
       case ListBlock(_, items) => forall i :: 0 <= i < |items| ==> Writable(lexer, items[i])
       case RecordBlock(_, entries) => GoodEntries(entries, syntax, lexer)
  }

  /** These texts stand in the lines from `at` on. */
  predicate StandAt(lines: seq<Line>, at: nat, texts: seq<string>) {
    at + |texts| <= |lines| && forall i :: 0 <= i < |texts| ==> lines[at + i].text == texts[i]
  }

  lemma NextLine(lines: seq<Line>, n: nat, syntax: Syntax, lexer: Lexer)
    requires 1 <= n < |lines|
    ensures ParseLines(lines, n + 1, syntax, lexer) ==
            Apply(ParseLines(lines, n, syntax, lexer), Classify(lines[n].text, syntax, lexer), n + 1, syntax)
  {
    hide Classify, Apply, Sound;
  }

  lemma ItemReads(lexer: Lexer, syntax: Syntax, s: Scalar)
    requires Writable(lexer, s)
    ensures Classify("  " + ("- " + Written(s)), syntax, lexer) == Item(Some(s))
  {
    hide Classify, ParseScalar, Trim, Writable, StripComment;
    var nested := "- " + Written(s);
    WrittenReads(lexer, s);
    ItemIsTrimmed(Written(s));
    NestedLineReads(lexer, syntax, nested);
    assert nested[0] == '-' && nested[1] == ' ' && nested[2..] == Written(s);
  }

  lemma ItemIsTrimmed(w: string)
    requires TrimmedText(w)
    ensures TrimmedText("- " + w)
  {
    DashIsNotBlank();
    hide Blank;
  }

  lemma DashIsNotBlank()
    ensures !Blank('-')
  {
  }

  lemma EntryReads(lexer: Lexer, syntax: Syntax, sub: string, s: Scalar)
    requires Writable(lexer, s) && KeyText(sub, syntax) && sub[0] != '-'
    ensures Classify("  " + (sub + ":" + (" " + Written(s))), syntax, lexer) == Entry(sub, Some(s))
  {
    hide Classify, ParseScalar, Trim, Writable, StripComment, SplitKeyValue, UnsafeName, Written;
    var nested := sub + ":" + (" " + Written(s));
    WrittenReads(lexer, s);
    EntryIsTrimmed(sub, Written(s));
    assert nested[0] == sub[0];
    NestedLineReads(lexer, syntax, nested);
    assert (" " + Written(s))[1..] == Written(s);
    KeyReads(lexer, syntax, sub, " " + Written(s));
  }

  lemma EntryIsTrimmed(sub: string, w: string)
    requires TrimmedText(sub) && TrimmedText(w)
    ensures TrimmedText(sub + ":" + (" " + w))
  {
    hide Blank;
    var t := sub + ":" + (" " + w);
    assert t[0] == sub[0] && t[|t| - 1] == w[|w| - 1];
  }

  lemma ScalarLineReads(lexer: Lexer, syntax: Syntax, key: string, s: Scalar)
    requires Writable(lexer, s) && KeyText(key, syntax)
    ensures Classify(key + ":" + (" " + Written(s)), syntax, lexer) == Top(key, Inline(One(s)))
  {
    hide Classify, ParseScalar, ParseInline, Trim, Writable, StripComment, SplitKeyValue, UnsafeName, Written;
    WrittenReads(lexer, s);
    HasEnds(Written(s));
    assert (" " + Written(s))[1..] == Written(s);
    TopLineReads(lexer, syntax, key, " " + Written(s));
    KeyReads(lexer, syntax, key, " " + Written(s));
    WrittenIsInline(lexer, syntax, s);
  }

  lemma KeyLineReads(lexer: Lexer, syntax: Syntax, key: string)
    requires KeyText(key, syntax)
    ensures Classify(key + ":" + "", syntax, lexer) == Top(key, NoValue)
  {
    hide Classify, ParseInline, SplitKeyValue, UnsafeName;
    TopLineReads(lexer, syntax, key, "");
    KeyReads(lexer, syntax, key, "");
  }

  /** A state in which nothing but the value of one key, and what is active, differs. */
  predicate OnlyValue(s: State, t: State, key: string, v: Value, active: Container) {
    t.values == s.values[key := v] && t.presentKeys == s.presentKeys && t.diagnostics == s.diagnostics && t.active == active
  }

  lemma {:induction false} ItemsParse(lines: seq<Line>, at: nat, items: seq<Scalar>, k: nat, syntax: Syntax, lexer: Lexer)
    requires at >= 1 && k <= |items| && StandAt(lines, at, ItemLines(items))
    requires forall i :: 0 <= i < |items| ==> Writable(lexer, items[i])
    requires var s := ParseLines(lines, at, syntax, lexer);
             s.active.Active? && s.active.kind == Unknown
    ensures var s, t := ParseLines(lines, at, syntax, lexer), ParseLines(lines, at + k, syntax, lexer);
            var key := s.active.key;
            if k == 0 then t == s else OnlyValue(s, t, key, List(items[..k]), Active(key, ListKind))
    decreases k
  {
    hide Classify, Writable, ParseLines, KeysAgree, MapsAccepted, Written;
    if k > 0 {
      var s := ParseLines(lines, at, syntax, lexer);
      ItemsParse(lines, at, items, k - 1, syntax, lexer);
      NextLine(lines, at + k - 1, syntax, lexer);
      assert lines[at + (k - 1)].text == ItemLines(items)[k - 1];
      ItemReads(lexer, syntax, items[k - 1]);
      assert items[..k] == items[..k - 1] + [items[k - 1]];
      var before := ParseLines(lines, at + k - 1, syntax, lexer);
      OneItem(before, items[k - 1], at + k, syntax);
    }
  }

  lemma OneItem(s: State, item: Scalar, number: nat, syntax: Syntax)
    requires KindMatches(s) && s.active.Active? && s.active.kind != RecordKind
    ensures var t, key := Apply(s, Item(Some(item)), number, syntax), s.active.key;
            OnlyValue(s, t, key, List((if s.active.kind == ListKind then s.values[key].items else []) + [item]),
                      Active(key, ListKind))
  {
    var key := s.active.key;
    if s.active.kind == Unknown {
      var ready := s.values[key := List([])];
      assert ready[key := List([] + [item])] == s.values[key := List([] + [item])];
    }
  }

  lemma {:induction false} MapHolds(entries: seq<(string, Scalar)>, sub: string)
    ensures sub in MapOf(entries) <==> exists i :: 0 <= i < |entries| && entries[i].0 == sub
  {
    if entries != [] {
      var front := entries[..|entries| - 1];
      MapHolds(front, sub);
      assert forall i :: 0 <= i < |front| ==> front[i] == entries[i];
    }
  }

  lemma {:induction false} EntriesParse(lines: seq<Line>, at: nat, entries: seq<(string, Scalar)>, k: nat, syntax: Syntax,
                                        lexer: Lexer)
    requires at >= 1 && k <= |entries| && StandAt(lines, at, EntryLines(entries)) && GoodEntries(entries, syntax, lexer)
    requires var s := ParseLines(lines, at, syntax, lexer);
             s.active.Active? && s.active.kind == Unknown
    ensures var s, t := ParseLines(lines, at, syntax, lexer), ParseLines(lines, at + k, syntax, lexer);
            var key := s.active.key;
            if k == 0 then t == s else OnlyValue(s, t, key, Record(MapOf(entries[..k])), Active(key, RecordKind))
    decreases k
  {
    hide Classify, Writable, ParseLines, KeysAgree, MapsAccepted, Written, MapOf, KeyText;
    if k > 0 {
      var s, e := ParseLines(lines, at, syntax, lexer), entries[k - 1];
      EntriesParse(lines, at, entries, k - 1, syntax, lexer);
      NextLine(lines, at + k - 1, syntax, lexer);
      assert lines[at + (k - 1)].text == EntryLines(entries)[k - 1];
      EntryReads(lexer, syntax, e.0, e.1);
      MapHolds(entries[..k - 1], e.0);
      MapGrows(entries, k);
      var before := ParseLines(lines, at + k - 1, syntax, lexer);
      KeyIsSafe(e.0, syntax);
      OneEntry(before, e.0, e.1, at + k, syntax);
    }
  }

  lemma MapGrows(entries: seq<(string, Scalar)>, k: nat)
    requires 0 < k <= |entries|
    ensures MapOf(entries[..k]) == MapOf(entries[..k - 1])[entries[k - 1].0 := entries[k - 1].1]
    ensures MapOf([]) == map[] && entries[..0] == []
  {
    assert entries[..k][..k - 1] == entries[..k - 1];
  }

  lemma KeyIsSafe(key: string, syntax: Syntax)
    requires KeyText(key, syntax)
    ensures key != "" && !UnsafeName(key)
  {
  }

  lemma OneEntry(s: State, sub: string, v: Scalar, number: nat, syntax: Syntax)
    requires KindMatches(s) && s.active.Active? && s.active.kind != ListKind
    requires sub != "" && !UnsafeName(sub) && (if syntax.stringValues then v.Str? else !v.Null?)
    requires s.active.kind == RecordKind ==> sub !in s.values[s.active.key].entries
    ensures var t, key := Apply(s, Entry(sub, Some(v)), number, syntax), s.active.key;
            OnlyValue(s, t, key, Record((if s.active.kind == RecordKind then s.values[key].entries else map[])[sub := v]),
                      Active(key, RecordKind))
  {
    hide UnsafeName;
    var key := s.active.key;
    if s.active.kind == Unknown {
      var ready := s.values[key := Record(map[])];
      assert ready[key := Record(map[][sub := v])] == s.values[key := Record(map[][sub := v])];
    }
  }

  lemma SplitStand(lines: seq<Line>, at: nat, a: seq<string>, b: seq<string>)
    requires StandAt(lines, at, a + b)
    ensures StandAt(lines, at, a) && StandAt(lines, at + |a|, b)
  {
    forall i | 0 <= i < |b| ensures lines[at + |a| + i].text == b[i] {
      assert (a + b)[|a| + i] == b[i] && lines[at + (|a| + i)].text == (a + b)[|a| + i];
    }
    forall i | 0 <= i < |a| ensures lines[at + i].text == a[i] { assert (a + b)[i] == a[i]; }
  }

  /** A block adds its key with its value and reports nothing. */
  lemma BlockParses(lines: seq<Line>, at: nat, b: Block, syntax: Syntax, lexer: Lexer)
    requires at >= 1 && GoodBlock(b, syntax, lexer) && StandAt(lines, at, LinesOf(b))
    requires b.key !in ParseLines(lines, at, syntax, lexer).values
    ensures var s, t := ParseLines(lines, at, syntax, lexer), ParseLines(lines, at + |LinesOf(b)|, syntax, lexer);
            && t.values == s.values[b.key := ValueOf(b)] && t.presentKeys == s.presentKeys + [b.key]
            && t.diagnostics == s.diagnostics
  {
    hide Classify, Writable, ParseLines, Sound, Written, MapOf, KeyText, GoodEntries, UnsafeName;
    KeyIsSafe(b.key, syntax);
    NextLine(lines, at, syntax, lexer);
    assert lines[at + 0].text == LinesOf(b)[0];
    var s := ParseLines(lines, at, syntax, lexer);
    match b
    case ScalarBlock(key, scalar) => ScalarLineReads(lexer, syntax, key, scalar);
    case ListBlock(key, items) =>
      KeyLineReads(lexer, syntax, key);
      SplitStand(lines, at, [key + ":" + ""], ItemLines(items));
      var named := ParseLines(lines, at + 1, syntax, lexer);
      ItemsParse(lines, at + 1, items, |items|, syntax, lexer);
      assert items[..|items|] == items;
      assert at + |LinesOf(b)| == at + 1 + |items|;
      SetTwice(s.values, key, Single(Null), List(items));
    case RecordBlock(key, entries) =>
      KeyLineReads(lexer, syntax, key);
      SplitStand(lines, at, [key + ":" + ""], EntryLines(entries));
      EntriesParse(lines, at + 1, entries, |entries|, syntax, lexer);
      assert entries[..|entries|] == entries;
      assert at + |LinesOf(b)| == at + 1 + |entries|;
      SetTwice(s.values, key, Single(Null), Record(MapOf(entries)));
  }

  lemma SetTwice(m: map<string, Value>, key: string, v: Value, w: Value)
    ensures m[key := v][key := w] == m[key := w]
  {
  }

  function Keys(doc: seq<Block>): seq<string> {
    seq(|doc|, i requires 0 <= i < |doc| => doc[i].key)
  }

  function ValuesOf(doc: seq<Block>): map<string, Value> {
    if doc == [] then map[]
    else
      var last := doc[|doc| - 1];
      ValuesOf(doc[..|doc| - 1])[last.key := ValueOf(last)]
  }

  function DocumentLines(doc: seq<Block>): seq<string> {
    if doc == [] then [] else DocumentLines(doc[..|doc| - 1]) + LinesOf(doc[|doc| - 1])
  }

  /** Distinct keys, each with a value that can be written plainly. */
  predicate GoodDocument(doc: seq<Block>, syntax: Syntax, lexer: Lexer) {
    && NoRepeats(Keys(doc))
    && forall i :: 0 <= i < |doc| ==> GoodBlock(doc[i], syntax, lexer)
  }

  lemma {:induction false} ValueKeys(doc: seq<Block>, key: string)
    ensures key in ValuesOf(doc) <==> key in Keys(doc)
  {
    hide ValueOf;
    if doc != [] {
      var front, last := doc[..|doc| - 1], doc[|doc| - 1];
      ValueKeys(front, key);
      assert Keys(doc) == Keys(front) + [last.key];
    }
  }

  lemma LastKeyIsNew(front: seq<string>, last: string)
    requires NoRepeats(front + [last])
    ensures NoRepeats(front) && last !in front
  {
    var all := front + [last];
    forall i | 0 <= i < |front| ensures front[i] != last { assert all[i] != all[|front|]; }
    forall i, j | 0 <= i < j < |front| ensures front[i] != front[j] { assert all[i] != all[j]; }
  }

  /** The lines of a document parse into its values, its keys in order, and no diagnostic. */
  lemma {:induction false} DocumentParses(lines: seq<Line>, doc: seq<Block>, syntax: Syntax, lexer: Lexer)
    requires GoodDocument(doc, syntax, lexer) && StandAt(lines, 1, DocumentLines(doc))
    ensures var t := ParseLines(lines, 1 + |DocumentLines(doc)|, syntax, lexer);
            t.values == ValuesOf(doc) && t.presentKeys == Keys(doc) && t.diagnostics == []
    decreases |doc|
  {
    hide LinesOf, ValueOf, GoodBlock, Sound, Classify, Apply;
    if doc != [] {
      var front, last := doc[..|doc| - 1], doc[|doc| - 1];
      assert Keys(doc) == Keys(front) + [last.key];
      LastKeyIsNew(Keys(front), last.key);
      SplitStand(lines, 1, DocumentLines(front), LinesOf(last));
      DocumentParses(lines, front, syntax, lexer);
      ValueKeys(front, last.key);
      BlockParses(lines, 1 + |DocumentLines(front)|, last, syntax, lexer);
    }
  }

  // ---------- the text ----------

  /** A text that stands on one line and is not the fence. */
  predicate OneLine(t: string) {
    '\n' !in t && t != FENCE && (t != "" ==> t[|t| - 1] != '\r')
  }

  function Ended(texts: seq<string>): string {
    if texts == [] then "" else texts[0] + "\n" + Ended(texts[1..])
  }

  lemma {:induction false} TextLines(content: string, start: nat, texts: seq<string>, rest: string)
    requires start <= |content| && content[start..] == Ended(texts) + rest
    requires forall i :: 0 <= i < |texts| ==> '\n' !in texts[i] && (texts[i] != "" ==> texts[i][|texts[i]| - 1] != '\r')
    ensures var lines := LinesFrom(content, start);
            && StandAt(lines, 0, texts) && (texts != [] ==> lines[|texts| - 1].endOffset == start + |Ended(texts)|)
    decreases |texts|
  {
    hide LinesFrom, WithoutReturn;
    if texts != [] {
      var first, tail := texts[0], texts[1..];
      var n := start + |first|;
      assert content[start..][..|first|] == first == content[start..n];
      assert content[start..][|first|] == '\n' == content[n];
      forall j | start <= j < n ensures content[j] != '\n' { assert content[j] == first[j - start] && first[j - start] in first; }
      LineEnds(content, start, n);
      KeepsReturnless(first);
      assert content[n + 1..] == content[start..][|first| + 1..] == Ended(tail) + rest;
      forall i | 0 <= i < |tail| ensures '\n' !in tail[i] && (tail[i] != "" ==> tail[i][|tail[i]| - 1] != '\r') {
        assert tail[i] == texts[i + 1];
      }
      TextLines(content, n + 1, tail, rest);
      var lines := LinesFrom(content, start);
      forall i | 0 <= i < |texts| ensures lines[i].text == texts[i] {
        if i > 0 { assert lines[i] == LinesFrom(content, n + 1)[i - 1] && texts[i] == tail[i - 1]; }
      }
    }
  }

  lemma KeepsReturnless(t: string)
    requires t != "" ==> t[|t| - 1] != '\r'
    ensures WithoutReturn(t) == t
  {
  }

  lemma WrittenIsOneLine(lexer: Lexer, s: Scalar)
    requires Writable(lexer, s)
    ensures '\n' !in Written(s) && Written(s) != "" && Written(s)[|Written(s)| - 1] != '\r'
  {
    ReturnIsBlank();
    hide ParseScalar, Blank;
    WrittenReads(lexer, s);
    if s.Str? { DoubleMembers(s.text, '\n'); }
  }

  lemma ReturnIsBlank()
    ensures Blank('\r')
  {
  }

  lemma KeyEnds(key: string, value: string, syntax: Syntax)
    requires KeyText(key, syntax) && '\n' !in value && (value != "" ==> value[|value| - 1] != '\r')
    ensures OneLine(key + ":" + value)
  {
    hide TrimmedText, UnsafeName;
    var line := key + ":" + value;
    assert line[|key|] == ':';
    assert ':' in line && ':' !in FENCE;
    assert line[|line| - 1] == if value == "" then ':' else value[|value| - 1];
  }

  lemma IndentedIsOneLine(t: string)
    requires '\n' !in t && t != "" && t[|t| - 1] != '\r'
    ensures OneLine("  " + t)
  {
    assert ("  " + t)[0] == ' ' && FENCE[0] == '-';
  }

  lemma BlockLinesAreLines(b: Block, syntax: Syntax, lexer: Lexer)
    requires GoodBlock(b, syntax, lexer)
    ensures forall i :: 0 <= i < |LinesOf(b)| ==> OneLine(LinesOf(b)[i])
  {
    hide OneLine, Written, Writable, KeyText;
    match b
    case ScalarBlock(key, scalar) =>
      WrittenIsOneLine(lexer, scalar);
      KeyEnds(key, " " + Written(scalar), syntax);
    case ListBlock(key, items) =>
      KeyEnds(key, "", syntax);
      forall i | 0 <= i < |items| ensures OneLine(ItemLines(items)[i]) {
        WrittenIsOneLine(lexer, items[i]);
        IndentedIsOneLine("- " + Written(items[i]));
      }
    case RecordBlock(key, entries) =>
      KeyEnds(key, "", syntax);
      forall i | 0 <= i < |entries| ensures OneLine(EntryLines(entries)[i]) {
        WrittenIsOneLine(lexer, entries[i].1);
        KeyEnds(entries[i].0, " " + Written(entries[i].1), syntax);
        OneLineFacts(entries[i].0 + ":" + (" " + Written(entries[i].1)));
        IndentedIsOneLine(entries[i].0 + ":" + (" " + Written(entries[i].1)));
      }
  }

  lemma OneLineFacts(t: string)
    requires OneLine(t)
    ensures '\n' !in t && (t != "" ==> t[|t| - 1] != '\r') && t != FENCE
  {
  }

  lemma {:induction false} DocumentLinesAreLines(doc: seq<Block>, syntax: Syntax, lexer: Lexer)
    requires forall i :: 0 <= i < |doc| ==> GoodBlock(doc[i], syntax, lexer)
    ensures forall i :: 0 <= i < |DocumentLines(doc)| ==> OneLine(DocumentLines(doc)[i])
    decreases |doc|
  {
    hide OneLine, LinesOf, GoodBlock;
    if doc != [] {
      DocumentLinesAreLines(doc[..|doc| - 1], syntax, lexer);
      BlockLinesAreLines(doc[|doc| - 1], syntax, lexer);
    }
  }

  /** The document between two fences, and a body after it. */
  function DocumentText(doc: seq<Block>, body: string): string {
    Ended([FENCE] + DocumentLines(doc) + [FENCE]) + body
  }

  /**
   A document written plainly, and any body after it, parse into exactly the values of the document, its
   keys in order of their texts, and the body, without a diagnostic.
   */
  lemma DocumentRoundTrip(doc: seq<Block>, body: string, syntax: Syntax, lexer: Lexer)
    requires GoodDocument(doc, syntax, lexer)
    ensures Parse(DocumentText(doc, body), syntax, lexer) == Parsed(true, true, ValuesOf(doc), Sort(Keys(doc)), body, [])
  {
    hide LinesFrom, GoodBlock, NoRepeats, ParseLines, DocumentLines, OneLine, Sort;
    var texts := [FENCE] + DocumentLines(doc) + [FENCE];
    var content := DocumentText(doc, body);
    var lines, n := LinesFrom(content, 0), 1 + |DocumentLines(doc)|;
    DocumentLinesAreLines(doc, syntax, lexer);
    forall i | 0 <= i < |texts| ensures '\n' !in texts[i] && (texts[i] != "" ==> texts[i][|texts[i]| - 1] != '\r') {
      if 0 < i < |texts| - 1 { OneLineFacts(DocumentLines(doc)[i - 1]); }
    }
    assert content[0..] == Ended(texts) + body;
    TextLines(content, 0, texts, body);
    SplitStand(lines, 0, [FENCE] + DocumentLines(doc), [FENCE]);
    SplitStand(lines, 0, [FENCE], DocumentLines(doc));
    DocumentParses(lines, doc, syntax, lexer);
    assert lines[0 + 0].text == FENCE && lines[n + 0].text == FENCE;
    forall i | 1 <= i < n ensures lines[i].text != FENCE {
      OneLineFacts(DocumentLines(doc)[i - 1]);
      assert lines[1 + (i - 1)].text == DocumentLines(doc)[i - 1];
    }
    assert ClosingFrom(lines, 1) == Some(n);
    assert lines[n].endOffset == |Ended(texts)|;
    assert content[|Ended(texts)|..] == body;
  }
}
