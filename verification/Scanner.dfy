/** The two hand-written scanners of the selector parser
    (agent/executor/driver.py): the bracket matcher and the top-level splitter.
    Each is a recursive function on the text still to be read, a loop proved
    equal to it, and one lemma saying how it passes over well-quoted text. */
module Scanner {
  import opened Text

  /** What a scanner needs to know about printed text: a character outside
      quotes, or a whole quoted string. */
  datatype Token = Plain(c: char) | Quoted(quote: char, body: string)

  predicate IsQuote(c: char) {
    c == '"' || c == '\''
  }

  predicate WellQuoted(t: Token) {
    match t
    case Plain(c) => !IsQuote(c)
    case Quoted(q, body) => IsQuote(q) && q !in body
  }

  function Spell(t: Token): string {
    match t
    case Plain(c) => [c]
    case Quoted(q, body) => [q] + body + [q]
  }

  function Render(ts: seq<Token>): string {
    if ts == [] then "" else Spell(ts[0]) + Render(ts[1..])
  }

  lemma {:induction false} RenderConcat(a: seq<Token>, b: seq<Token>)
    ensures Render(a + b) == Render(a) + Render(b)
  {
    if a == [] {
      assert a + b == b;
    } else {
      assert (a + b)[1..] == a[1..] + b;
      RenderConcat(a[1..], b);
    }
  }

  function Plains(s: string): (ts: seq<Token>)
    ensures |ts| == |s| && forall i :: 0 <= i < |s| ==> ts[i] == Plain(s[i])
  {
    seq(|s|, i requires 0 <= i < |s| => Plain(s[i]))
  }

  lemma {:induction false} RenderPlains(s: string)
    ensures Render(Plains(s)) == s
  {
    if s != "" {
      assert Plains(s)[1..] == Plains(s[1..]);
      RenderPlains(s[1..]);
    } else {
      assert Plains(s) == [];
    }
  }

  lemma RenderOne(t: Token)
    ensures Render([t]) == Spell(t)
  {
  }

  lemma RenderCons(t: Token, ts: seq<Token>)
    ensures Render([t] + ts) == Spell(t) + Render(ts)
  {
  }

  /** `name(args)`. */
  function Call(name: string, args: seq<Token>): seq<Token> {
    Plains(name) + ([Plain('(')] + (args + [Plain(')')]))
  }

  lemma RenderCall(name: string, args: seq<Token>)
    ensures Render(Call(name, args)) == name + "(" + Render(args) + ")"
  {
    RenderPlains(name);
    RenderOne(Plain('('));
    RenderOne(Plain(')'));
    RenderConcat(args, [Plain(')')]);
    RenderConcat([Plain('(')], args + [Plain(')')]);
    RenderConcat(Plains(name), [Plain('(')] + (args + [Plain(')')]));
  }

  // ---------- splitting at a separator outside quotes and parentheses ----------

  /** The stripped pieces still to be produced when `s` remains, `depth` parentheses are
      open, `inStr` is the open quote if any, and `buf` is the piece so far. */
  function Pieces(s: string, sep: string, depth: int, inStr: Option<char>, buf: string): seq<string>
    requires sep != ""
    decreases |s|
  {
    if s == "" then (if buf == "" then [] else [Strip(buf)])
    else if inStr.Some? then
      Pieces(s[1..], sep, depth, if s[0] == inStr.value then None else inStr, buf + [s[0]])
    else if IsQuote(s[0]) then Pieces(s[1..], sep, depth, Some(s[0]), buf + [s[0]])
    else if s[0] == '(' then Pieces(s[1..], sep, depth + 1, None, buf + [s[0]])
    else if s[0] == ')' then Pieces(s[1..], sep, depth - 1, None, buf + [s[0]])
    else if depth == 0 && sep <= s then [Strip(buf)] + Pieces(s[|sep|..], sep, 0, None, "")
    else Pieces(s[1..], sep, depth, None, buf + [s[0]])
  }

  function NonEmpty(parts: seq<string>): seq<string> {
    if parts == [] then [] else (if parts[0] == "" then [] else [parts[0]]) + NonEmpty(parts[1..])
  }

  lemma {:induction false} NonEmptyShorter(parts: seq<string>, bound: int)
    requires Shorter(parts, bound)
    ensures Shorter(NonEmpty(parts), bound)
  {
    if parts != [] {
      NonEmptyShorter(parts[1..], bound);
    }
  }

  /** `_split_top_level`. */
  function SplitTopLevel(text: string, sep: string): seq<string>
    requires sep != ""
  {
    NonEmpty(Pieces(text, sep, 0, None, ""))
  }

  method SplitTopLevelLoop(text: string, sep: string) returns (parts: seq<string>)
    requires sep != ""
    ensures parts == SplitTopLevel(text, sep)
  {
    var pieces: seq<string>, depth, inStr, buf, i := [], 0, None, "", 0;
    ghost var all := Pieces(text, sep, 0, None, "");
    assert text[0..] == text && pieces + all == all;
    while i < |text|
      invariant 0 <= i <= |text|
      invariant pieces + Pieces(text[i..], sep, depth, inStr, buf) == all
      decreases |text| - i
    {
      var ch := text[i];
      ghost var now := Pieces(text[i..], sep, depth, inStr, buf);
      assert text[i..] != "" && text[i..][0] == ch && text[i..][1..] == text[i + 1..];
      if inStr.Some? {
        buf := buf + [ch];
        if ch == inStr.value {
          inStr := None;
        }
      } else if IsQuote(ch) {
        inStr := Some(ch);
        buf := buf + [ch];
      } else if ch == '(' {
        depth := depth + 1;
        buf := buf + [ch];
      } else if ch == ')' {
        depth := depth - 1;
        buf := buf + [ch];
      } else if depth == 0 && sep <= text[i..] {
        ghost var later := Pieces(text[i + |sep|..], sep, 0, None, "");
        assert text[i..][|sep|..] == text[i + |sep|..];
        assert now == [Strip(buf)] + later;
        assert pieces + ([Strip(buf)] + later) == (pieces + [Strip(buf)]) + later;
        pieces, buf, i := pieces + [Strip(buf)], "", i + |sep|;
        continue;
      } else {
        buf := buf + [ch];
      }
      assert Pieces(text[i + 1..], sep, depth, inStr, buf) == now;
      i := i + 1;
    }
    assert text[i..] == "";
    if buf != "" {
      pieces := pieces + [Strip(buf)];
    }
    assert pieces == all;
    parts := KeepNonEmpty(pieces);
  }

  method KeepNonEmpty(pieces: seq<string>) returns (parts: seq<string>)
    ensures parts == NonEmpty(pieces)
  {
    parts := [];
    assert pieces[0..] == pieces;
    for i := 0 to |pieces|
      invariant parts + NonEmpty(pieces[i..]) == NonEmpty(pieces)
    {
      assert pieces[i..][1..] == pieces[i + 1..];
      if pieces[i] != "" {
        parts := parts + [pieces[i]];
      }
    }
  }

  function DepthStep(t: Token, d: int): int {
    if t == Plain('(') then d + 1 else if t == Plain(')') then d - 1 else d
  }

  /** The parenthesis depth after reading `ts` from depth `d`. */
  function DepthAfter(ts: seq<Token>, d: int): int {
    if ts == [] then d
    else DepthAfter(ts[1..], DepthStep(ts[0], d))
  }

  predicate CalmToken(t: Token, d: int, c: char) {
    WellQuoted(t) && (t.Plain? && d == 0 ==> t.c != c)
  }

  /** No plain `c` stands at depth 0: a separator starting with `c` cannot match. */
  predicate Calm(ts: seq<Token>, d: int, c: char) {
    ts == [] || (CalmToken(ts[0], d, c) && Calm(ts[1..], DepthStep(ts[0], d), c))
  }

  lemma CalmOne(t: Token, d: int, c: char)
    requires CalmToken(t, d, c)
    ensures Calm([t], d, c) && DepthAfter([t], d) == DepthStep(t, d)
  {
  }

  lemma PlainsLevel(s: string)
    requires forall i :: 0 <= i < |s| ==> !IsQuote(s[i]) && s[i] != '(' && s[i] != ')'
    ensures Level(Plains(s))
    ensures forall c :: c !in s ==> Plain(c) !in Plains(s)
  {
  }

  /** No parenthesis outside quotes. */
  predicate Level(ts: seq<Token>) {
    forall i :: 0 <= i < |ts| ==> LevelToken(ts[i])
  }

  predicate LevelToken(t: Token) {
    WellQuoted(t) && t != Plain('(') && t != Plain(')')
  }

  lemma {:induction false} LevelCalm(ts: seq<Token>, d: int, c: char)
    requires Level(ts) && (d == 0 ==> Plain(c) !in ts)
    ensures Calm(ts, d, c) && DepthAfter(ts, d) == d
  {
    if ts != [] {
      assert LevelToken(ts[0]) && Level(ts[1..]);
      LevelCalm(ts[1..], d, c);
    }
  }

  lemma {:induction false} CalmConcat(a: seq<Token>, b: seq<Token>, d: int, c: char)
    requires Calm(a, d, c) && Calm(b, DepthAfter(a, d), c)
    ensures Calm(a + b, d, c) && DepthAfter(a + b, d) == DepthAfter(b, DepthAfter(a, d))
  {
    if a == [] {
      assert a + b == b;
    } else {
      assert (a + b)[1..] == a[1..] + b;
      CalmConcat(a[1..], b, DepthStep(a[0], d), c);
    }
  }

  lemma {:induction false} SplitThroughQuote(body: string, q: char, rest: string, sep: string, depth: int, buf: string)
    requires sep != "" && q !in body
    ensures Pieces(body + [q] + rest, sep, depth, Some(q), buf) == Pieces(rest, sep, depth, None, buf + body + [q])
  {
    var s := body + [q] + rest;
    if body == "" {
      assert s[1..] == rest;
      assert buf + body + [q] == buf + [q];
    } else {
      assert s[1..] == body[1..] + [q] + rest;
      SplitThroughQuote(body[1..], q, rest, sep, depth, buf + [body[0]]);
      assert buf + [body[0]] + body[1..] + [q] == buf + body + [q];
    }
  }

  lemma SplitToken(t: Token, rest: string, sep: string, depth: int, buf: string)
    requires sep != "" && CalmToken(t, depth, sep[0])
    ensures Pieces(Spell(t) + rest, sep, depth, None, buf)
         == Pieces(rest, sep, DepthStep(t, depth), None, buf + Spell(t))
  {
    var s := Spell(t) + rest;
    if t.Plain? {
      assert s[1..] == rest && s[0] == t.c;
    } else {
      assert s[0] == t.quote && s[1..] == t.body + [t.quote] + rest;
      SplitThroughQuote(t.body, t.quote, rest, sep, depth, buf + [t.quote]);
      assert buf + [t.quote] + t.body + [t.quote] == buf + Spell(t);
    }
  }

  /** The splitter passes over calm text, adding it to the current piece. */
  lemma {:induction false} SplitSkips(ts: seq<Token>, rest: string, sep: string, depth: int, buf: string)
    requires sep != "" && Calm(ts, depth, sep[0])
    ensures Pieces(Render(ts) + rest, sep, depth, None, buf)
         == Pieces(rest, sep, DepthAfter(ts, depth), None, buf + Render(ts))
  {
    if ts == [] {
      assert Render(ts) + rest == rest && buf + Render(ts) == buf;
    } else {
      var t := ts[0];
      assert Render(ts) + rest == Spell(t) + (Render(ts[1..]) + rest);
      SplitToken(t, Render(ts[1..]) + rest, sep, depth, buf);
      SplitSkips(ts[1..], rest, sep, DepthStep(t, depth), buf + Spell(t));
      assert buf + Spell(t) + Render(ts[1..]) == buf + Render(ts);
    }
  }

  /** One piece, then a separator at depth 0. */
  lemma SplitPiece(ts: seq<Token>, rest: string, sep: string, buf: string)
    requires sep != "" && !IsQuote(sep[0]) && sep[0] != '(' && sep[0] != ')'
    requires Calm(ts, 0, sep[0]) && DepthAfter(ts, 0) == 0
    ensures Pieces(Render(ts) + (sep + rest), sep, 0, None, buf) == [Strip(buf + Render(ts))] + Pieces(rest, sep, 0, None, "")
  {
    SplitSkips(ts, sep + rest, sep, 0, buf);
    assert (sep + rest)[|sep|..] == rest;
  }

  /** The last piece: nothing follows. */
  lemma SplitLast(ts: seq<Token>, sep: string, buf: string)
    requires sep != "" && Calm(ts, 0, sep[0]) && buf + Render(ts) != ""
    ensures Pieces(Render(ts), sep, 0, None, buf) == [Strip(buf + Render(ts))]
  {
    SplitSkips(ts, "", sep, 0, buf);
    assert Render(ts) + "" == Render(ts);
  }

  /** The arguments of a call are read one level deeper. */
  lemma CallCalm(name: string, args: seq<Token>, d: int, c: char)
    requires Word(name) && !IsWordChar(c) && c != '(' && c != ')'
    requires Calm(args, d + 1, c) && DepthAfter(args, d + 1) == d + 1
    ensures Calm(Call(name, args), d, c) && DepthAfter(Call(name, args), d) == d
  {
    var open, close := [Plain('(')], [Plain(')')];
    PlainsLevel(name);
    LevelCalm(Plains(name), d, c);
    CalmOne(Plain(')'), d + 1, c);
    CalmConcat(args, close, d + 1, c);
    CalmOne(Plain('('), d, c);
    CalmConcat(open, args + close, d, c);
    CalmConcat(Plains(name), open + (args + close), d, c);
  }

  function RenderAll(pieces: seq<seq<Token>>): (r: seq<string>)
    ensures |r| == |pieces| && forall i :: 0 <= i < |r| ==> r[i] == Render(pieces[i])
  {
    if pieces == [] then [] else [Render(pieces[0])] + RenderAll(pieces[1..])
  }

  function JoinTokens(pieces: seq<seq<Token>>, sep: string): seq<Token> {
    if pieces == [] then []
    else if |pieces| == 1 then pieces[0]
    else pieces[0] + Plains(sep) + JoinTokens(pieces[1..], sep)
  }

  lemma {:induction false} RenderJoin(pieces: seq<seq<Token>>, sep: string)
    ensures Render(JoinTokens(pieces, sep)) == Join(RenderAll(pieces), sep)
  {
    if |pieces| > 1 {
      RenderJoin(pieces[1..], sep);
      RenderConcat(pieces[0] + Plains(sep), JoinTokens(pieces[1..], sep));
      RenderConcat(pieces[0], Plains(sep));
      RenderPlains(sep);
      assert RenderAll(pieces)[1..] == RenderAll(pieces[1..]);
    }
  }

  /** Text the splitter keeps in one piece. */
  predicate Unsplit(ts: seq<Token>, c: char) {
    Calm(ts, 0, c) && DepthAfter(ts, 0) == 0 && Render(ts) != ""
  }

  function StripAll(parts: seq<string>): seq<string> {
    if parts == [] then [] else [Strip(parts[0])] + StripAll(parts[1..])
  }

  predicate AllUnsplit(pieces: seq<seq<Token>>, c: char) {
    forall i :: 0 <= i < |pieces| ==> Unsplit(pieces[i], c)
  }

  /** Splitting a joined text gives back the pieces it was joined from. */
  lemma {:induction false} SplitJoined(pieces: seq<seq<Token>>, sep: string)
    requires sep != "" && !IsQuote(sep[0]) && sep[0] != '(' && sep[0] != ')'
    requires AllUnsplit(pieces, sep[0])
    ensures Pieces(Join(RenderAll(pieces), sep), sep, 0, None, "") == StripAll(RenderAll(pieces))
  {
    if |pieces| == 1 {
      var p := pieces[0];
      assert "" + Render(p) == Render(p);
      SplitLast(p, sep, "");
    } else if |pieces| > 1 {
      SplitJoined(pieces[1..], sep);
      SplitJoinedStep(pieces, sep);
    }
  }

  lemma SplitJoinedStep(pieces: seq<seq<Token>>, sep: string)
    requires sep != "" && !IsQuote(sep[0]) && sep[0] != '(' && sep[0] != ')'
    requires |pieces| > 1 && Unsplit(pieces[0], sep[0])
    ensures Pieces(Join(RenderAll(pieces), sep), sep, 0, None, "")
         == [Strip(Render(pieces[0]))] + Pieces(Join(RenderAll(pieces[1..]), sep), sep, 0, None, "")
  {
    JoinMore(pieces, sep);
    SplitPiece(pieces[0], Join(RenderAll(pieces[1..]), sep), sep, "");
    assert "" + Render(pieces[0]) == Render(pieces[0]);
  }

  lemma JoinMore(pieces: seq<seq<Token>>, sep: string)
    requires |pieces| > 1
    ensures Join(RenderAll(pieces), sep) == Render(pieces[0]) + (sep + Join(RenderAll(pieces[1..]), sep))
  {
    assert RenderAll(pieces)[1..] == RenderAll(pieces[1..]);
    Regroup(Render(pieces[0]), sep, Join(RenderAll(pieces[1..]), sep));
  }

  lemma Regroup(a: string, b: string, c: string)
    ensures a + b + c == a + (b + c)
  {
  }

  // ---------- matching a bracket ----------

  /** Which brackets are matched, and whether backslash escapes inside quotes. */
  datatype Brackets = Brackets(open: char, close: char, javaEscape: bool)

  const SQUARE := Brackets('[', ']', false)
  const JAVA_CALL := Brackets('(', ')', true)

  /** The open quote, if any, after one more character that is not escaped. */
  function QuoteAfter(c: char, inStr: Option<char>): Option<char> {
    if inStr.Some? then (if c == inStr.value then None else inStr) else if IsQuote(c) then Some(c) else None
  }

  /** How many characters are read at once: two for an escape inside quotes. */
  function Width(c: char, inStr: Option<char>, b: Brackets): nat {
    if inStr.Some? && b.javaEscape && c == '\\' then 2 else 1
  }

  function QuoteAfterChar(c: char, inStr: Option<char>, b: Brackets): Option<char> {
    if Width(c, inStr, b) == 2 then inStr else QuoteAfter(c, inStr)
  }

  predicate Outside(c: char, inStr: Option<char>) {
    inStr.None? && !IsQuote(c)
  }

  function DepthAfterChar(c: char, depth: int, inStr: Option<char>, b: Brackets): int {
    if !Outside(c, inStr) then depth else if c == b.open then depth + 1 else if c == b.close then depth - 1 else depth
  }

  predicate Closes(c: char, depth: int, inStr: Option<char>, b: Brackets) {
    Outside(c, inStr) && c != b.open && c == b.close && depth == 1
  }

  predicate Opens(c: char, depth: int, inStr: Option<char>, b: Brackets) {
    Outside(c, inStr) && c == b.open && depth == 0
  }

  /** Scans `s`, whose first character has index `pos`; returns where the
      content starts and where the closing bracket stands. */
  function Scan(s: string, pos: nat, depth: int, inStr: Option<char>, start: nat, b: Brackets): (r: Option<(nat, nat)>)
    requires start <= pos
    ensures r.Some? ==> r.value.0 <= r.value.1 < pos + |s|
    decreases |s|
  {
    if s == "" then None
    else if Closes(s[0], depth, inStr, b) then Some((start, pos))
    else
      var w := Width(s[0], inStr, b);
      if w > |s| then None
      else Scan(s[w..], pos + w, DepthAfterChar(s[0], depth, inStr, b), QuoteAfterChar(s[0], inStr, b),
                if Opens(s[0], depth, inStr, b) then pos + 1 else start, b)
  }

  /** `_match_bracketed`: the text inside the brackets and the index after them;
      `None` stands for the ValueError. */
  function MatchBracketed(text: string, from: nat, b: Brackets): (r: Option<(string, nat)>)
    ensures r.Some? ==> from < r.value.1 <= |text|
  {
    if from > |text| then None
    else
      ScanFindsLater(text[from..], from, 0, None, 0, b);
      match Scan(text[from..], from, 0, None, 0, b)
      case None => None
      case Some((start, close)) => Some((text[start..close], close + 1))
  }

  lemma {:induction false} ScanFindsLater(s: string, pos: nat, depth: int, inStr: Option<char>, start: nat, b: Brackets)
    requires start <= pos
    ensures var r := Scan(s, pos, depth, inStr, start, b); r.Some? ==> pos <= r.value.1
    decreases |s|
  {
    if s != "" && !Closes(s[0], depth, inStr, b) {
      var w := Width(s[0], inStr, b);
      if w <= |s| {
        ScanFindsLater(s[w..], pos + w, DepthAfterChar(s[0], depth, inStr, b), QuoteAfterChar(s[0], inStr, b),
                       if Opens(s[0], depth, inStr, b) then pos + 1 else start, b);
      }
    }
  }

  lemma CutBehind(pre: string, s: string, i: nat, n: nat)
    requires i + n <= |s|
    ensures (pre + s)[|pre|..] == s && (pre + s)[|pre| + i..|pre| + i + n] == s[i..i + n]
  {
  }

  /** What a successful scan of the rest of a text amounts to. */
  lemma MatchBehind(pre: string, s: string, b: Brackets, i: nat, content: string)
    requires i + |content| < |s| && s[i..i + |content|] == content
    requires Scan(s, |pre|, 0, None, 0, b) == Some((|pre| + i, |pre| + i + |content|))
    ensures MatchBracketed(pre + s, |pre|, b) == Some((content, |pre| + i + |content| + 1))
  {
    CutBehind(pre, s, i, |content|);
  }

  /** The scan from index `i` on; an escape can lead it past the end. */
  function ScanFrom(text: string, i: nat, depth: int, inStr: Option<char>, start: nat, b: Brackets): Option<(nat, nat)>
    requires start <= i
  {
    if i > |text| then None else Scan(text[i..], i, depth, inStr, start, b)
  }

  lemma MatchInside(pre: string, open: string, arg: string, close: string, post: string, b: Brackets)
    requires |open| == 1 && close != ""
    requires Scan(open + arg + close + post, |pre|, 0, None, 0, b) == Some((|pre| + 1, |pre| + 1 + |arg|))
    ensures MatchBracketed(pre + (open + arg + close + post), |pre|, b) == Some((arg, |pre| + |arg| + 2))
  {
    Inside(open, arg, close, post);
    MatchBehind(pre, open + arg + close + post, b, 1, arg);
  }

  predicate Proper(b: Brackets) {
    b.open != b.close && !IsQuote(b.open) && !IsQuote(b.close)
  }

  /** Content the scan passes over is what the brackets are matched around. */
  lemma ScanInside(open: string, arg: string, close: string, post: string, pos: nat, b: Brackets)
    requires open == [b.open] && close == [b.close] && Proper(b)
    requires Scan(arg + (close + post), pos + 1, 1, None, pos + 1, b)
          == Scan(close + post, pos + 1 + |arg|, 1, None, pos + 1, b)
    ensures Scan(open + arg + close + post, pos, 0, None, 0, b) == Some((pos + 1, pos + 1 + |arg|))
  {
    var s := open + arg + close + post;
    assert s[0] == b.open && s[1..] == arg + (close + post);
  }

  lemma Inside(open: string, arg: string, close: string, post: string)
    requires close != ""
    ensures var s := open + arg + close + post;
            |open| + |arg| < |s| && s[|open|..|open| + |arg|] == arg
  {
  }

  /** One step of the scan, by index. */
  lemma ScanAt(text: string, i: nat, depth: int, inStr: Option<char>, start: nat, b: Brackets)
    requires i < |text| && start <= i
    ensures var c := text[i];
            ScanFrom(text, i, depth, inStr, start, b)
            == if Closes(c, depth, inStr, b) then Some((start, i))
               else ScanFrom(text, i + Width(c, inStr, b), DepthAfterChar(c, depth, inStr, b), QuoteAfterChar(c, inStr, b),
                             if Opens(c, depth, inStr, b) then i + 1 else start, b)
  {
  }

  method MatchBracketedLoop(text: string, from: nat, b: Brackets) returns (r: Option<(string, nat)>)
    ensures r == MatchBracketed(text, from, b)
  {
    if from > |text| {
      return None;
    }
    var depth, inStr, i, start := 0, None, from, 0;
    ghost var found := ScanFrom(text, from, 0, None, 0, b);
    while i < |text|
      invariant start <= i && from <= i && ScanFrom(text, i, depth, inStr, start, b) == found
      decreases |text| - i
    {
      var ch := text[i];
      ghost var d, q, st := depth, inStr, start;
      ScanAt(text, i, d, q, st, b);
      if inStr.Some? {
        if b.javaEscape && ch == '\\' {
          i := i + 2;
          continue;
        }
        if ch == inStr.value {
          inStr := None;
        }
      } else if IsQuote(ch) {
        inStr := Some(ch);
      } else if ch == b.open {
        depth := depth + 1;
        if depth == 1 {
          start := i + 1;
        }
      } else if ch == b.close {
        depth := depth - 1;
        if depth == 0 {
          assert found == Some((start, i));
          return Some((text[start..i], i + 1));
        }
      }
      assert !Closes(ch, d, q, b) && Width(ch, q, b) == 1;
      assert inStr == QuoteAfterChar(ch, q, b) && depth == DepthAfterChar(ch, d, q, b);
      assert start == if Opens(ch, d, q, b) then i + 1 else st;
      i := i + 1;
    }
    return None;
  }

  /** Text with no bracket of either kind outside quotes. */
  predicate Bare(ts: seq<Token>, b: Brackets) {
    forall i :: 0 <= i < |ts| ==> BareToken(ts[i], b)
  }

  predicate BareToken(t: Token, b: Brackets) {
    WellQuoted(t) && (t.Plain? ==> t.c != b.open && t.c != b.close)
  }

  lemma BareConcat(x: seq<Token>, y: seq<Token>, b: Brackets)
    requires Bare(x, b) && Bare(y, b)
    ensures Bare(x + y, b)
  {
  }

  /** Text of word characters is bare, and so is a call with bare arguments. */
  lemma CallBare(name: string, args: seq<Token>)
    requires Bare(args, SQUARE) && Word(name)
    ensures Bare(Call(name, args), SQUARE)
  {
    var close := args + [Plain(')')];
    assert Bare([Plain('(')], SQUARE) && Bare([Plain(')')], SQUARE) && Bare(Plains(name), SQUARE);
    BareConcat(args, [Plain(')')], SQUARE);
    BareConcat([Plain('(')], close, SQUARE);
    BareConcat(Plains(name), [Plain('(')] + close, SQUARE);
  }

  lemma {:induction false} ScanThroughQuote(body: string, q: char, rest: string, pos: nat, depth: int, start: nat, b: Brackets)
    requires start <= pos && q !in body && !b.javaEscape
    ensures Scan(body + [q] + rest, pos, depth, Some(q), start, b) == Scan(rest, pos + |body| + 1, depth, None, start, b)
  {
    var s := body + [q] + rest;
    if body == "" {
      assert s[1..] == rest;
    } else {
      assert s[1..] == body[1..] + [q] + rest;
      ScanThroughQuote(body[1..], q, rest, pos + 1, depth, start, b);
    }
  }

  lemma ScanToken(t: Token, rest: string, pos: nat, depth: int, start: nat, b: Brackets)
    requires start <= pos && !b.javaEscape && BareToken(t, b)
    ensures Scan(Spell(t) + rest, pos, depth, None, start, b) == Scan(rest, pos + |Spell(t)|, depth, None, start, b)
  {
    var s := Spell(t) + rest;
    if t.Plain? {
      assert s[0] == t.c && s[1..] == rest;
    } else {
      assert s[0] == t.quote && s[1..] == t.body + [t.quote] + rest;
      ScanThroughQuote(t.body, t.quote, rest, pos + 1, depth, start, b);
    }
  }

  lemma {:induction false} ScanSkips(ts: seq<Token>, rest: string, pos: nat, depth: int, start: nat, b: Brackets)
    requires start <= pos && !b.javaEscape && Bare(ts, b)
    ensures Scan(Render(ts) + rest, pos, depth, None, start, b) == Scan(rest, pos + |Render(ts)|, depth, None, start, b)
  {
    if ts == [] {
      assert Render(ts) + rest == rest;
    } else {
      var t := ts[0];
      Regroup(Spell(t), Render(ts[1..]), rest);
      assert BareToken(t, b) && Bare(ts[1..], b);
      ScanToken(t, Render(ts[1..]) + rest, pos, depth, start, b);
      ScanSkips(ts[1..], rest, pos + |Spell(t)|, depth, start, b);
    }
  }

  /** `[` bracket-free quoted text `]` gives back exactly that text. */
  lemma SquareRoundTrip(ts: seq<Token>, rest: string)
    requires Bare(ts, SQUARE)
    ensures MatchBracketed("[" + Render(ts) + "]" + rest, 0, SQUARE) == Some((Render(ts), |Render(ts)| + 2))
  {
    var text := "[" + Render(ts) + "]" + rest;
    ScanSkips(ts, "]" + rest, 1, 1, 1, SQUARE);
    ScanInside("[", Render(ts), "]", rest, 0, SQUARE);
    assert "" + text == text;
    MatchInside("", "[", Render(ts), "]", rest, SQUARE);
  }
}
