/** Splitting a scheduler command into words, with quotes. */
module Commands {
  import opened Wrappers
  import Cron

  datatype Scan = Scan(tokens: seq<string>, current: string, quote: Option<char>)

  const START := Scan([], "", None)

  function Flush(st: Scan): Scan {
    if st.current != "" then Scan(st.tokens + [st.current], "", st.quote) else st
  }

  function Step(st: Scan, c: char): Scan {
    if st.quote == Some(c) then st.(quote := None)
    else if st.quote.Some? then st.(current := st.current + [c])
    else if c == '\'' || c == '"' then st.(quote := Some(c))
    else if Cron.IsWhitespace(c) then Flush(st)
    else st.(current := st.current + [c])
  }

  function Fold(st: Scan, s: string): Scan
    decreases |s|
  {
    if s == [] then st else Fold(Step(st, s[0]), s[1..])
  }

  datatype CommandError = InvalidSyntax

  /** The words of a command; a quote left open is an error. */
  function Words(s: string): Result<seq<string>, CommandError> {
    var st := Fold(START, s);
    if st.quote.Some? then Err(InvalidSyntax) else Ok(Flush(st).tokens)
  }

  method TokenizeQuoted(input: string) returns (r: Result<seq<string>, CommandError>)
    ensures r == Words(input)
  {
    var tokens: seq<string> := [];
    var current: string := "";
    var quote: Option<char> := None;
    assert input[0..] == input;
    for i := 0 to |input|
      invariant Fold(Scan(tokens, current, quote), input[i..]) == Fold(START, input)
    {
      assert input[i..][0] == input[i] && input[i..][1..] == input[i + 1..];
      var ch := input[i];
      match quote {
        case Some(active) =>
          if ch == active { quote := None; } else { current := current + [ch]; }
        case None =>
          if ch == '\'' || ch == '"' {
            quote := Some(ch);
          } else if Cron.IsWhitespace(ch) {
            if current != "" {
              tokens := tokens + [current];
              current := "";
            }
          } else {
            current := current + [ch];
          }
      }
    }
    assert input[|input|..] == [];
    if quote.Some? { return Err(InvalidSyntax); }
    if current != "" { tokens := tokens + [current]; }
    return Ok(tokens);
  }

  // ---- What can be written ----

  predicate NonEmpty(tokens: seq<string>) { forall i :: 0 <= i < |tokens| ==> tokens[i] != "" }

  lemma {:induction false} FoldNonEmpty(st: Scan, s: string)
    requires NonEmpty(st.tokens)
    ensures NonEmpty(Fold(st, s).tokens)
    decreases |s|
  {
    if s != [] { FoldNonEmpty(Step(st, s[0]), s[1..]); }
  }

  lemma {:induction false} FoldConcat(st: Scan, a: string, b: string)
    ensures Fold(st, a + b) == Fold(Fold(st, a), b)
    decreases |a|
  {
    if a == [] {
      assert a + b == b;
    } else {
      assert (a + b)[1..] == a[1..] + b;
      FoldConcat(Step(st, a[0]), a[1..], b);
    }
  }

  /** A character in quotes of the kind it is not. */
  function Quoted(c: char): string { if c == '"' then ['\'', c, '\''] else ['"', c, '"'] }

  function QuoteAll(s: string): string {
    if s == [] then [] else QuoteAll(s[..|s| - 1]) + Quoted(s[|s| - 1])
  }

  function OneWritten(word: string): string { QuoteAll(word) + " " }

  /** Each token in quotes, followed by a space. */
  function Written(tokens: seq<string>): string {
    if tokens == [] then [] else Written(tokens[..|tokens| - 1]) + OneWritten(tokens[|tokens| - 1])
  }

  lemma FoldQuoted(st: Scan, c: char)
    requires st.quote == None
    ensures Fold(st, Quoted(c)) == st.(current := st.current + [c])
  {
    var q := Quoted(c);
    assert q[1..][0] == c && q[1..][1..][0] == q[0] && q[1..][1..][1..] == [];
    var one := Step(st, q[0]);
    var two := Step(one, c);
    assert Fold(st, q) == Fold(one, q[1..]) == Fold(two, q[1..][1..]) == Step(two, q[0]);
  }

  lemma {:induction false} FoldQuoteAll(st: Scan, s: string)
    requires st.quote == None
    ensures Fold(st, QuoteAll(s)) == st.(current := st.current + s)
    decreases |s|
  {
    if s == [] {
      assert st.current + s == st.current;
    } else {
      var init, c := s[..|s| - 1], s[|s| - 1];
      FoldQuoteAll(st, init);
      FoldConcat(st, QuoteAll(init), Quoted(c));
      FoldQuoted(Fold(st, QuoteAll(init)), c);
      assert st.current + s == (st.current + init) + [c];
    }
  }

  /** One more written token is one more token read. */
  lemma FoldOneWritten(tokens: seq<string>, word: string)
    requires word != ""
    ensures Fold(Scan(tokens, "", None), OneWritten(word)) == Scan(tokens + [word], "", None)
  {
    var st := Scan(tokens, "", None);
    FoldConcat(st, QuoteAll(word), " ");
    FoldQuoteAll(st, word);
    assert "" + word == word;
    var full := Scan(tokens, word, None);
    assert " "[1..] == "";
    assert Fold(full, " ") == Fold(Step(full, ' '), "");
  }

  lemma {:induction false} FoldWritten(tokens: seq<string>)
    requires forall i :: 0 <= i < |tokens| ==> |tokens[i]| > 0
    ensures Fold(START, Written(tokens)) == Scan(tokens, "", None)
    decreases |tokens|
  {
    if tokens != [] {
      var init, last := tokens[..|tokens| - 1], tokens[|tokens| - 1];
      FoldWritten(init);
      FoldConcat(START, Written(init), OneWritten(last));
      FoldOneWritten(init, last);
      assert init + [last] == tokens;
    }
  }

  /** Every list of non-empty words can be written so that it is read back unchanged. */
  lemma WrittenReads(tokens: seq<string>)
    requires NonEmpty(tokens)
    ensures Words(Written(tokens)) == Ok(tokens)
  {
    FoldWritten(tokens);
  }

  /** The lists some command text reads as are exactly the lists without an empty word. */
  lemma ReadableExactly(tokens: seq<string>)
    ensures (exists s :: Words(s) == Ok(tokens)) <==> NonEmpty(tokens)
  {
    if NonEmpty(tokens) { WrittenReads(tokens); }
    if s :| Words(s) == Ok(tokens) { FoldNonEmpty(START, s); }
  }

  // ---- What plain and quoted text means ----

  predicate IsQuote(c: char) { c == '\'' || c == '"' }

  lemma {:induction false} PlainFold(tokens: seq<string>, word: string, s: string)
    requires (forall c :: c in word ==> !Cron.IsWhitespace(c)) && forall c :: c in s ==> !IsQuote(c)
    ensures var st := Fold(Scan(tokens, word, None), s);
      st.quote.None? && Flush(st).tokens == tokens + Cron.SplitWhitespace(word + s)
    decreases |s|
  {
    if s == [] {
      assert word + s == word;
      if word != "" { Cron.OneWord(word); }
    } else {
      var c, rest := s[0], s[1..];
      assert c in s && forall d :: d in rest ==> d in s;
      assert word + s == word + [c] + rest;
      if Cron.IsWhitespace(c) {
        if word == "" {
          assert ("" + s)[1..] == "" + rest;
          PlainFold(tokens, "", rest);
        } else {
          PlainFold(tokens + [word], "", rest);
          Cron.WordThen(word, c, rest);
          assert "" + rest == rest;
        }
      } else {
        PlainFold(tokens, word + [c], rest);
      }
    }
  }

  /** Without quotes a command is split at white space. */
  lemma PlainWords(s: string)
    requires forall c :: c in s ==> !IsQuote(c)
    ensures Words(s) == Ok(Cron.SplitWhitespace(s))
  {
    PlainFold([], "", s);
    assert "" + s == s && [] + Cron.SplitWhitespace(s) == Cron.SplitWhitespace(s);
  }

  lemma {:induction false} InsideQuotes(st: Scan, q: char, body: string)
    requires st.quote == Some(q) && q !in body
    ensures Fold(st, body) == st.(current := st.current + body)
    decreases |body|
  {
    if body == [] {
      assert st.current + body == st.current;
    } else {
      assert body[0] in body && body == [body[0]] + body[1..];
      InsideQuotes(Step(st, body[0]), q, body[1..]);
      assert st.current + body == (st.current + [body[0]]) + body[1..];
    }
  }

  /** Quoted text joins the word as it is, white space and the other quote included. */
  lemma QuotedFold(st: Scan, q: char, body: string)
    requires st.quote.None? && IsQuote(q) && q !in body
    ensures Fold(st, [q] + body + [q]) == st.(current := st.current + body)
  {
    var open := st.(quote := Some(q));
    FoldConcat(st, [q] + body, [q]);
    FoldConcat(st, [q], body);
    assert [q][1..] == [];
    InsideQuotes(open, q, body);
    assert Fold(st, [q]) == open;
    var within := open.(current := st.current + body);
    assert Fold(within, [q]) == Step(within, q);
  }

  lemma {:induction false} TokensInFront(tokens: seq<string>, st: Scan, s: string)
    ensures var r := Fold(st, s);
      Fold(st.(tokens := tokens + st.tokens), s) == r.(tokens := tokens + r.tokens)
    decreases |s|
  {
    if s != [] {
      assert tokens + (st.tokens + [st.current]) == (tokens + st.tokens) + [st.current];
      TokensInFront(tokens, Step(st, s[0]), s[1..]);
    }
  }

  /** The text ends between two words. */
  predicate AtBreak(a: string) { a == "" || Cron.IsWhitespace(a[|a| - 1]) }

  lemma {:induction false} QuoteKind(st: Scan, s: string)
    requires st.quote.Some? ==> IsQuote(st.quote.value)
    ensures Fold(st, s).quote.Some? ==> IsQuote(Fold(st, s).quote.value)
    decreases |s|
  {
    if s != [] { QuoteKind(Step(st, s[0]), s[1..]); }
  }

  lemma BreakState(a: string)
    requires Words(a).Ok? && AtBreak(a)
    ensures Fold(START, a) == Scan(Words(a).value, "", None)
  {
    if a != "" {
      var init, c := a[..|a| - 1], a[|a| - 1];
      assert a == init + [c] && [c][1..] == [];
      FoldConcat(START, init, [c]);
      QuoteKind(START, init);
      assert Fold(START, a) == Fold(Step(Fold(START, init), c), "");
    }
  }

  /** A quoted text between two breaks is one word, exactly as quoted. */
  lemma QuotedWord(a: string, q: char, body: string, b: string)
    requires Words(a).Ok? && AtBreak(a) && IsQuote(q) && q !in body && body != "" && Words(b).Ok?
    ensures Words(a + ([q] + body + [q]) + (" " + b)) == Ok(Words(a).value + [body] + Words(b).value)
  {
    var w, word := Words(a).value, [q] + body + [q];
    BreakState(a);
    FoldConcat(START, a, word);
    QuotedFold(Scan(w, "", None), q, body);
    FoldConcat(START, a + word, " " + b);
    assert "" + body == body && (" " + b)[1..] == b;
    assert Fold(Scan(w, body, None), " " + b) == Fold(Scan(w + [body], "", None), b);
    TokensInFront(w + [body], START, b);
    assert (w + [body]) + [] == w + [body];
    var r := Fold(START, b);
    assert (w + [body] + r.tokens) + [r.current] == w + [body] + (r.tokens + [r.current]);
  }

  /** A quote that is not closed is an error. */
  lemma OpenQuoteFails(a: string, q: char, body: string)
    requires Words(a).Ok? && IsQuote(q) && q !in body
    ensures Words(a + [q] + body).Err?
  {
    FoldConcat(START, a + [q], body);
    FoldConcat(START, a, [q]);
    assert [q][1..] == [];
    var st := Fold(START, a);
    assert Fold(st, [q]) == st.(quote := Some(q));
    InsideQuotes(st.(quote := Some(q)), q, body);
  }
}
