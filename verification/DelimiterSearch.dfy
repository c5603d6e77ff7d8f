/** Where a quote-free delimiter can occur in a printed literal. The class and
    ends-with patterns find the end of a literal by such a delimiter, so this is
    what decides whether they find the right place. */
module DelimiterSearch {
  import opened Text
  import opened Scanner
  import opened XPathLiteral
  import opened XPathPredicate

  /** A delimiter of the two greedy patterns: no quotes, longer than the text
      between two quotes of a printed `concat`, and ending in a character that
      it holds nowhere else, so that it cannot overlap itself. */
  predicate Delimiter(sep: string) {
    && |sep| > 3
    && (forall i :: 0 <= i < |sep| ==> !IsQuote(sep[i]))
    && sep[0] !in CONCAT
    && sep[|sep| - 1] !in "()cn"
    && forall i :: 0 <= i < |sep| - 1 ==> sep[i] != sep[|sep| - 1]
  }

  lemma BothDelimiters()
    ensures Delimiter(CLASS_SEP) && Delimiter(ENDS_SEP)
  {
  }

  lemma OccursShifted(a: string, s: string, b: string, sep: string)
    requires Occurs(s, sep)
    ensures Occurs(a + s + b, sep)
  {
    var i: nat :| At(s, sep, i);
    assert (a + s + b)[|a| + i..|a| + i + |sep|] == s[i..i + |sep|];
    assert At(a + s + b, sep, |a| + i);
  }

  /** A character outside the delimiter separates its occurrences. */
  lemma OccursAround(a: string, c: char, b: string, sep: string)
    requires sep != "" && c !in sep
    ensures Occurs(a + [c] + b, sep) <==> Occurs(a, sep) || Occurs(b, sep)
  {
    var s := a + [c] + b;
    assert s[|a|] == c;
    if i: nat :| At(s, sep, i) {
      if i + |sep| <= |a| {
        assert s[i..i + |sep|] == a[i..i + |sep|];
        assert At(a, sep, i);
      } else if i > |a| {
        assert s[i..i + |sep|] == b[i - |a| - 1..i - |a| - 1 + |sep|];
        assert At(b, sep, i - |a| - 1);
      } else {
        assert false;
      }
    }
    if Occurs(a, sep) {
      OccursShifted("", a, [c] + b, sep);
      assert "" + a + ([c] + b) == s;
    }
    if Occurs(b, sep) {
      OccursShifted(a + [c], b, "", sep);
      assert a + [c] + b + "" == s;
    }
  }

  lemma OccursNotShort(s: string, sep: string)
    requires |s| < |sep|
    ensures !Occurs(s, sep)
  {
  }

  lemma OccursNotWithoutFirst(s: string, sep: string)
    requires sep != "" && sep[0] !in s
    ensures !Occurs(s, sep)
  {
  }

  lemma OccursQuoted(p: string, q: char, sep: string)
    requires Delimiter(sep) && IsQuote(q)
    ensures Occurs([q] + p + [q], sep) <==> Occurs(p, sep)
  {
    var s := [q] + p + [q];
    assert s == "" + [q] + (p + [q] + "");
    OccursAround("", q, p + [q] + "", sep);
    OccursAround(p, q, "", sep);
    OccursNotShort("", sep);
  }

  /** Text before a quote that is too short to hold the delimiter. */
  lemma OccursAfter(lead: string, q: char, tail: string, sep: string)
    requires Delimiter(sep) && IsQuote(q) && !Occurs(lead, sep)
    ensures Occurs(lead + ([q] + tail), sep) <==> Occurs(tail, sep)
  {
    assert lead + ([q] + tail) == lead + [q] + tail;
    OccursAround(lead, q, tail, sep);
  }

  lemma OccursInArgument(p: string, tail: string, sep: string)
    requires Delimiter(sep)
    ensures Occurs(['"'] + (p + (['"'] + tail)), sep) <==> Occurs(p, sep) || Occurs(tail, sep)
  {
    OccursNotShort("", sep);
    OccursAfter("", '"', p + (['"'] + tail), sep);
    assert "" + (['"'] + (p + (['"'] + tail))) == ['"'] + (p + (['"'] + tail));
    assert p + (['"'] + tail) == p + ['"'] + tail;
    OccursAround(p, '"', tail, sep);
  }

  lemma OccursInSeparator(comma: string, space: string, tail: string, sep: string)
    requires Delimiter(sep) && |comma| == 1 && |space| == 1
    ensures Occurs(comma + (space + (Spell(Quoted('\'', ['"'])) + (comma + (space + (['"'] + tail))))), sep)
       <==> Occurs(tail, sep)
  {
    var last := ['\''] + comma + space;
    var rest := last + (['"'] + tail);
    OccursNotShort(last, sep);
    OccursAfter(last, '"', tail, sep);
    OccursNotShort(comma + space + ['\''], sep);
    OccursAfter(comma + space + ['\''], '"', rest, sep);
    assert comma + (space + (Spell(Quoted('\'', ['"'])) + (comma + (space + (['"'] + tail)))))
        == comma + space + ['\''] + (['"'] + rest);
  }

  /** The arguments of a printed `concat`, with the closing parenthesis. */
  function ArgumentsText(parts: seq<string>): string
    requires parts != []
    decreases |parts|, 1
  {
    ['"'] + (parts[0] + (['"'] + AfterFirst(parts)))
  }

  /** After its opening quote: the first argument, its closing quote, and the rest. */
  function AfterFirst(parts: seq<string>): string
    requires parts != []
    decreases |parts|, 0
  {
    if |parts| == 1 then [')']
    else [','] + ([' '] + (Spell(Quoted('\'', ['"'])) + ([','] + ([' '] + ArgumentsText(parts[1..])))))
  }

  lemma {:induction false} ArgumentsTextRendered(parts: seq<string>)
    requires parts != []
    ensures ArgumentsText(parts) == Render(CommaTokens(ArgTokens(parts))) + [')']
    decreases |parts|
  {
    if |parts| == 1 {
      RenderOne(ArgTokens(parts)[0]);
    } else {
      ArgumentsTextRendered(parts[1..]);
      RenderTwoArgs(ArgTokens(parts));
      assert ArgTokens(parts)[1..][1..] == ArgTokens(parts[1..]);
      RegroupArguments(parts[0], Render(CommaTokens(ArgTokens(parts[1..]))), Spell(Quoted('\'', ['"'])));
    }
  }

  lemma RenderTwoArgs(ts: seq<Token>)
    requires |ts| > 2
    ensures Render(CommaTokens(ts))
         == Spell(ts[0]) + ([','] + ([' '] + (Spell(ts[1]) + ([','] + ([' '] + Render(CommaTokens(ts[1..][1..])))))))
  {
    RenderCommaStep(ts);
    RenderCommaStep(ts[1..]);
  }

  lemma RegroupArguments(p: string, later: string, quote: string)
    ensures (['"'] + p + ['"']) + ([','] + ([' '] + (quote + ([','] + ([' '] + later))))) + [')']
         == ['"'] + (p + (['"'] + ([','] + ([' '] + (quote + ([','] + ([' '] + (later + [')']))))))))
  {
  }

  lemma {:induction false} OccursInArguments(parts: seq<string>, sep: string)
    requires parts != [] && Delimiter(sep)
    ensures Occurs(ArgumentsText(parts), sep) <==> Occurs(Join(parts, ['"']), sep)
  {
    OccursInArgument(parts[0], AfterFirst(parts), sep);
    if |parts| == 1 {
      OccursNotShort([')'], sep);
    } else {
      OccursInArguments(parts[1..], sep);
        var tail := parts[1..][0] + (['"'] + AfterFirst(parts[1..]));
      OccursInSeparator([','], [' '], tail, sep);
      OccursNotShort("", sep);
      OccursAfter("", '"', tail, sep);
      assert "" + (['"'] + tail) == ['"'] + tail;
      OccursAround(parts[0], '"', Join(parts[1..], ['"']), sep);
    }
  }

  /** A delimiter occurs in a printed literal just when it occurs in the value. */
  lemma OccursInLiteral(value: string, sep: string)
    requires Delimiter(sep)
    ensures Occurs(Literal(value), sep) <==> Occurs(value, sep)
  {
    if '"' !in value {
      OccursQuoted(value, '"', sep);
    } else if '\'' !in value {
      OccursQuoted(value, '\'', sep);
    } else {
      OccursInConcat(CONCAT, SplitOn(value, '"'), sep);
      RenderArgs(SplitOn(value, '"'));
      ArgumentsTextRendered(SplitOn(value, '"'));
      JoinSplitOn(value, '"');
      assert Literal(value) == CONCAT + ArgumentsText(SplitOn(value, '"'));
    }
  }

  lemma OccursInConcat(lead: string, parts: seq<string>, sep: string)
    requires Delimiter(sep) && parts != [] && sep[0] !in lead
    ensures Occurs(lead + ArgumentsText(parts), sep) <==> Occurs(Join(parts, ['"']), sep)
  {
    var tail := parts[0] + (['"'] + AfterFirst(parts));
    OccursInArguments(parts, sep);
    OccursNotWithoutFirst(lead, sep);
    OccursAfter(lead, '"', tail, sep);
    OccursNotShort("", sep);
    OccursAfter("", '"', tail, sep);
    assert "" + (['"'] + tail) == ['"'] + tail;
  }

  lemma LiteralShape(value: string)
    ensures var lit := Literal(value);
            && |lit| >= 2
            && (IsQuote(lit[0]) || lit[0] == 'c') && (IsQuote(lit[|lit| - 1]) || lit[|lit| - 1] == ')')
            && Trimmed(lit)
  {
  }

  /** In `lit sep lit` the delimiter stands between the two, or after it inside
      the second one, but never across them. */
  lemma OccursTwice(lit: string, sep: string, k: nat)
    requires Delimiter(sep) && k >= |lit|
    ensures At(lit + (sep + lit), sep, k)
       <==> k == |lit| || (k >= |lit| + |sep| && At(lit, sep, k - |lit| - |sep|))
  {
    var s, n, m := lit + (sep + lit), |lit|, |sep|;
    if k == n {
      assert s[n..n + m] == sep;
    } else if k < n + m {
      assert s[n + m - 1] == sep[m - 1];
      assert k + m <= |s| ==> s[k..k + m][m - 1 - (k - n)] == s[n + m - 1];
    } else if k + m <= |s| {
      assert s[k..k + m] == lit[k - n - m..k - n];
    }
  }

  /** The pattern `(.*)sep(.*)` on `lit sep lit` splits at the printed delimiter if
      the literal holds none, and otherwise at the last one in the second literal. */
  lemma AroundTwice(lit: string, sep: string)
    requires Delimiter(sep)
    ensures !Occurs(lit, sep) ==> Around(lit + (sep + lit), sep) == Some((lit, lit))
    ensures Occurs(lit, sep) ==>
              var k := LastIndexOf(lit, sep);
              k.Some? && Around(lit + (sep + lit), sep) == Some((lit + sep + lit[..k.value], lit[k.value + |sep|..]))
  {
    var s, n, m := lit + (sep + lit), |lit|, |sep|;
    OccursTwice(lit, sep, n);
    var k := LastIndexOf(s, sep).value;
    assert k >= n;
    OccursTwice(lit, sep, k);
    if i: nat :| At(lit, sep, i) {
      var j := LastIndexOf(lit, sep).value;
      OccursTwice(lit, sep, n + m + j);
      assert k == n + m + j;
      CutsTwice(lit, sep, j);
    } else {
      assert k == n;
      assert s[..n] == lit && s[n + m..] == lit;
    }
  }

  lemma CutsTwice(lit: string, sep: string, j: nat)
    requires j + |sep| <= |lit|
    ensures var s, k := lit + (sep + lit), |lit| + |sep| + j;
            s[..k] == lit + sep + lit[..j] && s[k + |sep|..] == lit[j + |sep|..]
  {
  }
}
