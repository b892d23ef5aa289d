/** Comment stripping and comma splitting of frontmatter values (source-frontmatter.ts). */
module FrontmatterTokens {
  import opened Common
  import opened Text

  predicate QuoteMark(c: char) {
    c == '\'' || c == '"'
  }

  /** isAsciiWhitespace. */
  predicate AsciiWhitespace(c: char) {
    c == ' ' || c == '\t' || c == '\n' || c == '\r'
  }

  // ---------- comments ----------

  /** Where the first comment at or after `i` starts, when the scanner there is inside `quote`. */
  function CommentAt(v: string, i: nat, quote: Option<char>): (r: Option<nat>)
    requires i <= |v|
    ensures r.Some? ==> i <= r.value < |v| && v[r.value] == '#'
    decreases |v| - i
  {
    if i == |v| then None
    else
      var c := v[i];
      if quote.Some? then
        CommentAt(v, i + 1, if c == quote.value && (i == 0 || v[i - 1] != '\\') then None else quote)
      else if QuoteMark(c) then CommentAt(v, i + 1, Some(c))
      else if c == '#' && (i == 0 || AsciiWhitespace(v[i - 1])) then Some(i)
      else CommentAt(v, i + 1, None)
  }

  function StripComment(v: string): string {
    match CommentAt(v, 0, None)
    case None => v
    case Some(k) => TrimEnd(v[..k])
  }

  /** A prefix that ends before the first comment has no comment. */
  lemma {:induction false} NoCommentBefore(v: string, p: string, i: nat, quote: Option<char>)
    requires p <= v && i <= |p|
    requires CommentAt(v, i, quote).None? || CommentAt(v, i, quote).value >= |p|
    ensures CommentAt(p, i, quote).None?
    decreases |p| - i
  {
    if i < |p| {
      assert p[i] == v[i] && (i > 0 ==> p[i - 1] == v[i - 1]);
      if quote.Some? {
        NoCommentBefore(v, p, i + 1, if v[i] == quote.value && (i == 0 || v[i - 1] != '\\') then None else quote);
      } else if QuoteMark(v[i]) {
        NoCommentBefore(v, p, i + 1, Some(v[i]));
      } else {
        NoCommentBefore(v, p, i + 1, None);
      }
    }
  }

  /** Stripping keeps a prefix, and stripping again changes nothing. */
  lemma StripCommentIdempotent(v: string)
    ensures StripComment(v) <= v
    ensures StripComment(StripComment(v)) == StripComment(v)
  {
    var k := CommentAt(v, 0, None);
    if k.Some? {
      NoCommentBefore(v, TrimEnd(v[..k.value]), 0, None);
    }
  }

  /** stripTrailingComment. */
  method StripTrailingComment(value: string) returns (r: string)
    ensures r == StripComment(value)
  {
    var quote: Option<char>, index := None, 0;
    while index < |value|
      invariant 0 <= index <= |value|
      invariant CommentAt(value, 0, None) == CommentAt(value, index, quote)
    {
      var character := value[index];
      if quote.Some? {
        if character == quote.value && (index == 0 || value[index - 1] != '\\') {
          quote := None;
        }
      } else if QuoteMark(character) {
        quote := Some(character);
      } else if character == '#' && (index == 0 || AsciiWhitespace(value[index - 1])) {
        return TrimEnd(value[..index]);
      }
      index := index + 1;
    }
    return value;
  }

  // ---------- tokens ----------

  datatype Scanner = Scanner(quote: Option<char>, escaped: bool, depth: nat)

  const NEUTRAL := Scanner(None, false, 0)

  predicate Separates(c: char, s: Scanner) {
    !s.escaped && s.quote.None? && c == ',' && s.depth == 0
  }

  function Depth(c: char, depth: nat, balanced: bool): nat {
    if balanced && (c == '(' || c == '[') then depth + 1
    else if balanced && (c == ')' || c == ']') && depth > 0 then depth - 1
    else depth
  }

  function Next(c: char, s: Scanner, balanced: bool): Scanner {
    if s.escaped then s.(escaped := false)
    else if c == '\\' && s.quote.Some? then s.(escaped := true)
    else if s.quote.Some? then if c == s.quote.value then s.(quote := None) else s
    else if QuoteMark(c) then s.(quote := Some(c))
    else s.(depth := Depth(c, s.depth, balanced))
  }

  function Prepend(c: char, chunks: seq<string>): seq<string>
    requires chunks != []
  {
    [[c] + chunks[0]] + chunks[1..]
  }

  /** The text cut at every comma that separates. */
  function Chunks(v: string, s: Scanner, balanced: bool): (r: seq<string>)
    ensures r != []
  {
    if v == "" then [""]
    else if Separates(v[0], s) then [""] + Chunks(v[1..], Next(v[0], s, balanced), balanced)
    else Prepend(v[0], Chunks(v[1..], Next(v[0], s, balanced), balanced))
  }

  function Tokens(chunks: seq<string>): seq<string> {
    if chunks == [] then []
    else (if Trim(chunks[0]) == "" then [] else [Trim(chunks[0])]) + Tokens(chunks[1..])
  }

  /** splitDelimitedTokens as a function. */
  function SplitTokens(v: string, balanced: bool): seq<string> {
    Tokens(Chunks(v, NEUTRAL, balanced))
  }

  function WithCurrent(current: string, chunks: seq<string>): seq<string>
    requires chunks != []
  {
    [current + chunks[0]] + chunks[1..]
  }

  /** splitDelimitedTokens. */
  method SplitDelimitedTokens(value: string, balanced: bool) returns (result: seq<string>)
    ensures result == SplitTokens(value, balanced)
  {
    hide Trim, Chunks, Tokens, WithCurrent, Blank, Next, Separates, Depth;
    result := [];
    var current, quote: Option<char>, escaped, depth := "", None, false, 0;
    var i := 0;
    assert value[0..] == value;
    NoCurrent(Chunks(value, NEUTRAL, balanced));
    while i < |value|
      invariant 0 <= i <= |value|
      invariant SplitTokens(value, balanced) ==
                result + Tokens(WithCurrent(current, Chunks(value[i..], Scanner(quote, escaped, depth), balanced)))
    {
      var character := value[i];
      ghost var before := Scanner(quote, escaped, depth);
      ghost var rest := Chunks(value[i + 1..], Next(character, before, balanced), balanced);
      Unfold(value, i, before, balanced, current);
      NextIs(character, before, balanced);
      i := i + 1;
      if escaped {
        current := current + [character];
        escaped := false;
        continue;
      }
      if character == '\\' && quote.Some? {
        current := current + [character];
        escaped := true;
        continue;
      }
      if quote.Some? {
        current := current + [character];
        if character == quote.value {
          quote := None;
        }
        continue;
      }
      if QuoteMark(character) {
        quote := Some(character);
        current := current + [character];
        continue;
      }
      if balanced && (character == '(' || character == '[') {
        depth := depth + 1;
      }
      if balanced && (character == ')' || character == ']') && depth > 0 {
        depth := depth - 1;
      }
      assert depth == Depth(character, before.depth, balanced);
      if character == ',' && depth == 0 {
        CutGrows(result, current, rest);
        var item := Trim(current);
        if item != "" {
          result := result + [item];
        }
        current := "";
        NoCurrent(rest);
      } else {
        current := current + [character];
      }
    }
    assert value[i..] == "";
    AtTheEnd(current, Scanner(quote, escaped, depth), balanced);
    TokensOfLast(current);
    var item := Trim(current);
    if item != "" {
      result := result + [item];
    }
    assert result + [] == result;
  }

  /** One character as the branches of the scanner loop treat it. */
  lemma NextIs(c: char, s: Scanner, balanced: bool)
    ensures s.escaped ==> Next(c, s, balanced) == s.(escaped := false)
    ensures !s.escaped && s.quote.Some? ==>
              Next(c, s, balanced) == if c == '\\' then s.(escaped := true)
                                      else if c == s.quote.value then s.(quote := None) else s
    ensures !s.escaped && s.quote.None? ==>
              Next(c, s, balanced) == if QuoteMark(c) then s.(quote := Some(c)) else s.(depth := Depth(c, s.depth, balanced))
    ensures Depth(c, s.depth, balanced) ==
            if balanced && (c == '(' || c == '[') then s.depth + 1
            else if balanced && (c == ')' || c == ']') && s.depth > 0 then s.depth - 1 else s.depth
    ensures Separates(c, s) <==>
            !s.escaped && s.quote.None? && c == ',' && Depth(c, s.depth, balanced) == 0
  {
  }

  lemma NoCurrent(chunks: seq<string>)
    requires chunks != []
    ensures WithCurrent("", chunks) == chunks
  {
    assert "" + chunks[0] == chunks[0];
  }

  lemma AtTheEnd(current: string, s: Scanner, balanced: bool)
    ensures WithCurrent(current, Chunks("", s, balanced)) == [current]
  {
    assert current + "" == current;
  }

  lemma Unfold(v: string, i: nat, s: Scanner, balanced: bool, current: string)
    requires i < |v|
    ensures var rest := Chunks(v[i + 1..], Next(v[i], s, balanced), balanced);
            WithCurrent(current, Chunks(v[i..], s, balanced)) ==
            if Separates(v[i], s) then [current] + rest else WithCurrent(current + [v[i]], rest)
  {
    assert v[i..][1..] == v[i + 1..];
    assert current + "" == current;
    var rest := Chunks(v[i + 1..], Next(v[i], s, balanced), balanced);
    assert current + ([v[i]] + rest[0]) == (current + [v[i]]) + rest[0];
  }

  lemma TokensOfCut(current: string, rest: seq<string>)
    ensures Tokens([current] + rest) == (if Trim(current) == "" then [] else [Trim(current)]) + Tokens(rest)
  {
    assert ([current] + rest)[1..] == rest;
  }

  lemma TokensOfLast(current: string)
    ensures Tokens([current]) == if Trim(current) == "" then [] else [Trim(current)]
  {
    assert [current][1..] == [];
  }

  lemma CutGrows(result: seq<string>, current: string, rest: seq<string>)
    ensures result + Tokens([current] + rest) ==
            (if Trim(current) == "" then result else result + [Trim(current)]) + Tokens(rest)
  {
    hide Trim, Tokens;
    TokensOfCut(current, rest);
    if Trim(current) == "" {
      assert [] + Tokens(rest) == Tokens(rest);
    } else {
      assert result + ([Trim(current)] + Tokens(rest)) == result + [Trim(current)] + Tokens(rest);
    }
  }

  // ---------- splitting what was joined ----------

  function Run(v: string, s: Scanner, balanced: bool): Scanner {
    if v == "" then s else Run(v[1..], Next(v[0], s, balanced), balanced)
  }

  /** No comma of `v` separates. */
  predicate Whole(v: string, s: Scanner, balanced: bool) {
    v == "" || (!Separates(v[0], s) && Whole(v[1..], Next(v[0], s, balanced), balanced))
  }

  lemma {:induction false} RunAppend(a: string, b: string, s: Scanner, balanced: bool)
    ensures Run(a + b, s, balanced) == Run(b, Run(a, s, balanced), balanced)
    ensures Whole(a + b, s, balanced) <==> Whole(a, s, balanced) && Whole(b, Run(a, s, balanced), balanced)
  {
    if a == "" {
      assert a + b == b;
    } else {
      assert (a + b)[1..] == a[1..] + b;
      RunAppend(a[1..], b, Next(a[0], s, balanced), balanced);
    }
  }

  lemma {:induction false} ChunksOfWhole(v: string, s: Scanner, balanced: bool)
    requires Whole(v, s, balanced)
    ensures Chunks(v, s, balanced) == [v]
  {
    if v != "" {
      ChunksOfWhole(v[1..], Next(v[0], s, balanced), balanced);
      assert [v[0]] + v[1..] == v;
    }
  }

  lemma {:induction false} ChunksOfCut(v: string, rest: string, s: Scanner, balanced: bool)
    requires Whole(v, s, balanced) && Run(v, s, balanced) == NEUTRAL
    ensures Chunks(v + "," + rest, s, balanced) == [v] + Chunks(rest, NEUTRAL, balanced)
  {
    if v == "" {
      assert "" + "," + rest == "," + rest;
      assert ("," + rest)[1..] == rest;
    } else {
      assert (v + "," + rest)[1..] == v[1..] + "," + rest;
      assert (v + "," + rest)[0] == v[0];
      ChunksOfCut(v[1..], rest, Next(v[0], s, balanced), balanced);
      assert [v[0]] + v[1..] == v;
    }
  }

  /** Every chunk is whole, and every chunk but the last ends where the scanner is neutral again. */
  predicate WellCut(chunks: seq<string>, balanced: bool) {
    && (forall i :: 0 <= i < |chunks| ==> Whole(chunks[i], NEUTRAL, balanced))
    && (forall i :: 0 <= i < |chunks| - 1 ==> Run(chunks[i], NEUTRAL, balanced) == NEUTRAL)
  }

  lemma {:induction false} ChunksFrom(v: string, s: Scanner, balanced: bool)
    ensures var cs := Chunks(v, s, balanced);
            && Whole(cs[0], s, balanced) && (|cs| > 1 ==> Run(cs[0], s, balanced) == NEUTRAL)
            && WellCut(cs[1..], balanced)
  {
    if v != "" {
      var rest := Chunks(v[1..], Next(v[0], s, balanced), balanced);
      ChunksFrom(v[1..], Next(v[0], s, balanced), balanced);
      var cs := Chunks(v, s, balanced);
      if Separates(v[0], s) {
        assert Next(v[0], s, balanced) == NEUTRAL;
        assert cs[1..] == rest;
        assert forall i :: 0 < i < |rest| ==> rest[i] == rest[1..][i - 1];
      } else {
        assert cs[1..] == rest[1..];
        assert cs[0][1..] == rest[0];
      }
    }
  }

  lemma ChunksWellCut(v: string, balanced: bool)
    ensures WellCut(Chunks(v, NEUTRAL, balanced), balanced)
  {
    ChunksFrom(v, NEUTRAL, balanced);
    var cs := Chunks(v, NEUTRAL, balanced);
    assert forall i :: 0 < i < |cs| ==> cs[i] == cs[1..][i - 1];
  }

  /** An escape only happens inside a quote, and a quote is opened by a quotation mark. */
  predicate Sane(s: Scanner) {
    (s.escaped ==> s.quote.Some?) && (s.quote.Some? ==> QuoteMark(s.quote.value))
  }

  lemma {:induction false} RunSane(v: string, s: Scanner, balanced: bool)
    requires Sane(s)
    ensures Sane(Run(v, s, balanced))
  {
    if v != "" { RunSane(v[1..], Next(v[0], s, balanced), balanced); }
  }

  lemma {:induction false} BlanksKeep(v: string, s: Scanner, balanced: bool)
    requires forall i :: 0 <= i < |v| ==> Blank(v[i])
    requires Sane(s)
    ensures Whole(v, s, balanced)
    ensures s == NEUTRAL ==> Run(v, s, balanced) == NEUTRAL
    ensures Run(v, s, balanced) == NEUTRAL ==> s == NEUTRAL
  {
    if v != "" { BlanksKeep(v[1..], Next(v[0], s, balanced), balanced); }
  }

  lemma CoreKeeps(before: string, core: string, after: string, balanced: bool)
    requires (forall i :: 0 <= i < |before| ==> Blank(before[i])) && (forall i :: 0 <= i < |after| ==> Blank(after[i]))
    requires Whole(before + (core + after), NEUTRAL, balanced)
    ensures Whole(core, NEUTRAL, balanced)
    ensures Run(before + (core + after), NEUTRAL, balanced) == NEUTRAL ==> Run(core, NEUTRAL, balanced) == NEUTRAL
  {
    hide Whole, Run, Blank;
    RunAppend(before, core + after, NEUTRAL, balanced);
    BlanksKeep(before, NEUTRAL, balanced);
    RunAppend(core, after, NEUTRAL, balanced);
    RunSane(core, NEUTRAL, balanced);
    BlanksKeep(after, Run(core, NEUTRAL, balanced), balanced);
  }

  /** Trimming a chunk changes neither its wholeness nor, for a closed chunk, where it ends. */
  lemma TrimKeeps(v: string, balanced: bool)
    requires Whole(v, NEUTRAL, balanced)
    ensures Whole(Trim(v), NEUTRAL, balanced)
    ensures Run(v, NEUTRAL, balanced) == NEUTRAL ==> Run(Trim(v), NEUTRAL, balanced) == NEUTRAL
  {
    hide Trim, Whole, Run, Blank;
    TrimCuts(v);
    var a, b :| 0 <= a <= b <= |v| && Trim(v) == v[a..b] && (forall i :: 0 <= i < a ==> Blank(v[i]))
                && (forall i :: b <= i < |v| ==> Blank(v[i]));
    assert v == v[..a] + (v[a..b] + v[b..]);
    CoreKeeps(v[..a], v[a..b], v[b..], balanced);
  }

  predicate TrimmedTokens(tokens: seq<string>) {
    forall i :: 0 <= i < |tokens| ==> tokens[i] != "" && Trim(tokens[i]) == tokens[i]
  }

  lemma {:induction false} TokensWellCut(chunks: seq<string>, balanced: bool)
    requires WellCut(chunks, balanced)
    ensures WellCut(Tokens(chunks), balanced) && TrimmedTokens(Tokens(chunks))
  {
    hide Trim, Whole, Run;
    if chunks != [] {
      var rest := Tokens(chunks[1..]);
      assert forall i :: 0 < i < |chunks| ==> chunks[1..][i - 1] == chunks[i];
      TokensWellCut(chunks[1..], balanced);
      TrimLeaves(chunks[0]);
      TrimKeeps(chunks[0], balanced);
      var tokens := Tokens(chunks);
      assert Trim(chunks[0]) != "" ==> tokens == [Trim(chunks[0])] + rest;
      assert rest != [] ==> |chunks| > 1;
    }
  }

  /** `tokens.join(",")`. */
  function JoinTokens(tokens: seq<string>): string {
    if tokens == [] then ""
    else if |tokens| == 1 then tokens[0]
    else tokens[0] + "," + JoinTokens(tokens[1..])
  }

  lemma {:induction false} ChunksOfJoin(tokens: seq<string>, balanced: bool)
    requires tokens != [] && WellCut(tokens, balanced)
    ensures Chunks(JoinTokens(tokens), NEUTRAL, balanced) == tokens
  {
    hide Chunks, Whole, Run;
    if |tokens| == 1 {
      ChunksOfWhole(tokens[0], NEUTRAL, balanced);
    } else {
      assert forall i :: 0 < i < |tokens| ==> tokens[1..][i - 1] == tokens[i];
      ChunksOfJoin(tokens[1..], balanced);
      ChunksOfCut(tokens[0], JoinTokens(tokens[1..]), NEUTRAL, balanced);
    }
  }

  lemma {:induction false} TokensAreFixed(tokens: seq<string>)
    requires TrimmedTokens(tokens)
    ensures Tokens(tokens) == tokens
  {
    hide Trim;
    if tokens != [] {
      assert forall i :: 0 < i < |tokens| ==> tokens[1..][i - 1] == tokens[i];
      TokensAreFixed(tokens[1..]);
    }
  }

  /** Splitting, joining with commas and splitting again gives the same tokens, for every text and both nestings. */
  lemma SplitJoinSplit(v: string, balanced: bool)
    ensures SplitTokens(JoinTokens(SplitTokens(v, balanced)), balanced) == SplitTokens(v, balanced)
  {
    hide Chunks, Whole, Run, Trim;
    var tokens := SplitTokens(v, balanced);
    ChunksWellCut(v, balanced);
    TokensWellCut(Chunks(v, NEUTRAL, balanced), balanced);
    if tokens == [] {
      NothingSplits(balanced);
    } else {
      ChunksOfJoin(tokens, balanced);
      TokensAreFixed(tokens);
    }
  }

  lemma NothingSplits(balanced: bool)
    ensures SplitTokens("", balanced) == []
  {
    TokensOfLast("");
  }
}
