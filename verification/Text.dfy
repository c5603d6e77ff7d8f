/** String helpers shared by the selector printers and parsers: the few Python
    string operations the source relies on, with the facts used about them. */
module Text {

  datatype Option<+T> = None | Some(value: T) {
    predicate IsFailure() {
      None?
    }

    function PropagateFailure<U>(): Option<U>
      requires None?
    {
      None
    }

    function Extract(): T
      requires Some?
    {
      value
    }
  }

  /** The characters removed by Python's `str.strip()`. */
  predicate IsSpace(c: char) {
    || '\U{0009}' <= c <= '\U{000D}'
    || '\U{001C}' <= c <= '\U{0020}'
    || c == '\U{0085}' || c == '\U{00A0}' || c == '\U{1680}'
    || '\U{2000}' <= c <= '\U{200A}'
    || c == '\U{2028}' || c == '\U{2029}' || c == '\U{202F}' || c == '\U{205F}' || c == '\U{3000}'
  }

  function StripLeft(s: string): string {
    if s != "" && IsSpace(s[0]) then StripLeft(s[1..]) else s
  }

  function StripRight(s: string): string {
    if s != "" && IsSpace(s[|s| - 1]) then StripRight(s[..|s| - 1]) else s
  }

  /** What is stripped on the left is all the leading space and nothing else. */
  lemma {:induction false} StripLeftCuts(s: string)
    ensures var r := StripLeft(s);
            && |r| <= |s| && r == s[|s| - |r|..] && (r != "" ==> !IsSpace(r[0]))
            && forall i :: 0 <= i < |s| - |r| ==> IsSpace(s[i])
  {
    if s != "" && IsSpace(s[0]) {
      StripLeftCuts(s[1..]);
      var k := |s| - 1 - |StripLeft(s[1..])|;
      assert s[1..][k..] == s[k + 1..];
      assert forall i :: 1 <= i < |s| ==> s[i] == s[1..][i - 1];
    }
  }

  lemma {:induction false} StripRightCuts(s: string)
    ensures var r := StripRight(s);
            && |r| <= |s| && r == s[..|r|] && (r != "" ==> !IsSpace(r[|r| - 1]))
            && forall i :: |r| <= i < |s| ==> IsSpace(s[i])
  {
    if s != "" && IsSpace(s[|s| - 1]) {
      var front := s[..|s| - 1];
      StripRightCuts(front);
      assert front[..|StripRight(front)|] == s[..|StripRight(front)|];
      assert forall i :: 0 <= i < |s| - 1 ==> s[i] == front[i];
    }
  }

  function Strip(s: string): string {
    StripRight(StripLeft(s))
  }

  lemma StripShortens(s: string)
    ensures |Strip(s)| <= |s|
  {
    StripLeftCuts(s);
    StripRightCuts(StripLeft(s));
  }

  /** Stripping a text that ends with no space only strips on the left. */
  lemma StripToEnd(s: string)
    requires s != "" && !IsSpace(s[|s| - 1])
    ensures Strip(s) == StripLeft(s) && Strip(s) != ""
    ensures |Strip(s)| <= |s| && Strip(s) == s[|s| - |Strip(s)|..] && !IsSpace(Strip(s)[0])
    ensures Strip(s)[|Strip(s)| - 1] == s[|s| - 1]
  {
    StripLeftCuts(s);
  }

  /** Every text is shorter than `bound`. */
  predicate Shorter(parts: seq<string>, bound: int) {
    forall i :: 0 <= i < |parts| ==> |parts[i]| < bound
  }

  lemma ShorterConcat(a: seq<string>, b: seq<string>, bound: int)
    ensures Shorter(a + b, bound) <==> Shorter(a, bound) && Shorter(b, bound)
  {
    if Shorter(a + b, bound) {
      forall i | 0 <= i < |b|
        ensures |b[i]| < bound
      {
        assert (a + b)[i + |a|] == b[i];
      }
      assert forall i :: 0 <= i < |a| ==> (a + b)[i] == a[i];
    }
  }

  /** No text contains `ch`. */
  predicate Without(parts: seq<string>, ch: char) {
    forall i :: 0 <= i < |parts| ==> ch !in parts[i]
  }

  /** A text that neither starts nor ends with a space is not changed by `Strip`. */
  predicate Trimmed(s: string) {
    s != "" && !IsSpace(s[0]) && !IsSpace(s[|s| - 1])
  }

  lemma StripTrimmed(s: string)
    requires Trimmed(s)
    ensures Strip(s) == s
    ensures Strip(" " + s) == s
  {
  }

  /** `sub` stands in `s` at position `i`. */
  predicate At(s: string, sub: string, i: nat) {
    i + |sub| <= |s| && s[i..i + |sub|] == sub
  }

  ghost predicate Occurs(s: string, sub: string) {
    exists i: nat :: At(s, sub, i)
  }

  /** The greatest position below `i` where `sub` occurs: what a greedy `(.*)`
      in front of a fixed delimiter settles on. */
  function LastBelow(s: string, sub: string, i: nat): (r: Option<nat>)
    ensures r.Some? ==> At(s, sub, r.value) && forall j: nat :: r.value < j < i ==> !At(s, sub, j)
    ensures r.None? ==> forall j: nat :: j < i ==> !At(s, sub, j)
  {
    if i == 0 then None
    else if At(s, sub, i - 1) then Some(i - 1)
    else LastBelow(s, sub, i - 1)
  }

  function LastIndexOf(s: string, sub: string): (r: Option<nat>)
    ensures r.Some? ==> At(s, sub, r.value) && forall j: nat :: r.value < j ==> !At(s, sub, j)
    ensures r.None? ==> !Occurs(s, sub)
  {
    LastBelow(s, sub, |s| + 1)
  }

  function Join(parts: seq<string>, sep: string): string {
    if parts == [] then ""
    else if |parts| == 1 then parts[0]
    else parts[0] + sep + Join(parts[1..], sep)
  }

  /** Python's `value.split(ch)`. */
  function SplitOn(s: string, ch: char): (parts: seq<string>)
    ensures parts != []
    ensures Without(parts, ch)
  {
    if s == "" then [""]
    else
      var rest := SplitOn(s[1..], ch);
      if s[0] == ch then [""] + rest else [[s[0]] + rest[0]] + rest[1..]
  }

  lemma {:induction false} JoinSplitOn(s: string, ch: char)
    ensures Join(SplitOn(s, ch), [ch]) == s
  {
    if s != "" {
      JoinSplitOn(s[1..], ch);
      var rest := SplitOn(s[1..], ch);
      if s[0] == ch {
        assert ([""] + rest)[1..] == rest;
      } else {
        var parts := [[s[0]] + rest[0]] + rest[1..];
        assert parts[1..] == rest[1..];
      }
    }
  }

  /** Python's `value.replace(ch, image)` for a one-character pattern. */
  function Replace(s: string, ch: char, image: string): string {
    if s == "" then "" else (if s[0] == ch then image else [s[0]]) + Replace(s[1..], ch, image)
  }

  /** A letter, digit, underscore or hyphen: the class `[\w-]` on ASCII. */
  predicate IsWordChar(c: char) {
    'a' <= c <= 'z' || 'A' <= c <= 'Z' || '0' <= c <= '9' || c == '_' || c == '-'
  }

  /** Only word characters. */
  predicate Word(s: string) {
    forall i :: 0 <= i < |s| ==> IsWordChar(s[i])
  }

  /** The longest prefix of characters satisfying `p`, as a greedy `[...]*` takes it. */
  function TakeWhile(s: string, p: char -> bool): (n: nat)
    ensures n <= |s|
    ensures forall i :: 0 <= i < n ==> p(s[i])
    ensures n < |s| ==> !p(s[n])
  {
    if s == "" || !p(s[0]) then 0 else 1 + TakeWhile(s[1..], p)
  }

  lemma {:induction false} TakeWhileExact(name: string, rest: string, p: char -> bool)
    requires forall i :: 0 <= i < |name| ==> p(name[i])
    requires rest != "" ==> !p(rest[0])
    ensures TakeWhile(name + rest, p) == |name|
  {
    var whole := name + rest;
    assert forall i :: 0 <= i < |name| ==> whole[i] == name[i];
    assert rest != "" ==> whole[|name|] == rest[0];
  }

  /** The rest of `s` after the literal `prefix`, if `s` starts with it. */
  function Expect(s: string, prefix: string): (r: Option<string>)
    ensures r.Some? <==> prefix <= s
    ensures r.Some? ==> s == prefix + r.value
  {
    if prefix <= s then Some(s[|prefix|..]) else None
  }

  lemma ExpectPrefix(prefix: string, rest: string)
    ensures Expect(prefix + rest, prefix) == Some(rest)
  {
  }
}
