/**
 The tokenizer of an architecture policy string such as "x86_64:i686>i586=athlon".
 The source scans the C string with strcspn(arch, ":=>"); a non-empty run is a
 token and the separator character that ends a run becomes the "preceding
 separator" of whatever comes next.
 */
module PolicyTokens {

  /** A non-empty token together with the separator that came right before it
      ('\0' when it is the first token of the string). */
  datatype Token = Token(sep: char, text: string)

  /** The three relation characters of a policy string. */
  predicate IsSeparator(c: char) {
    c == ':' || c == '=' || c == '>'
  }

  /** The characters at which strcspn(s, ":=>") stops: a separator or the
      C string terminator. */
  predicate IsStop(c: char) {
    IsSeparator(c) || c == '\0'
  }

  /** No character of s stops a strcspn scan. */
  predicate Plain(s: string) {
    forall k :: 0 <= k < |s| ==> !IsStop(s[k])
  }

  /** strcspn(s, ":=>"): the length of the longest prefix of s that holds
      neither a separator nor a NUL. */
  function Span(s: string): (l: nat)
    ensures l <= |s| && Plain(s[..l])
    ensures l == |s| || IsStop(s[l])
  {
    if s == [] || IsStop(s[0]) then 0
    else
      var r := Span(s[1..]);
      assert s[..r + 1] == [s[0]] + s[1..][..r];
      1 + r
  }

  /** The two properties of Span determine it. */
  lemma {:induction false} SpanUnique(s: string, l: nat)
    requires l <= |s| && Plain(s[..l])
    requires l == |s| || IsStop(s[l])
    ensures Span(s) == l
    decreases l
  {
    if l > 0 {
      assert !IsStop(s[0]) by { assert s[..l][0] == s[0]; }
      assert s[1..][..l - 1] == s[..l][1..];
      SpanUnique(s[1..], l - 1);
    }
  }

  /** The token a run yields: none when the run is empty. */
  function Lead(d: char, run: string): seq<Token> {
    if run == [] then [] else [Token(d, run)]
  }

  /** The tokens of s when the separator d comes right before it.  The scan
      ends at the end of s or at a NUL; an empty run (two separators in a row,
      or a leading one) yields no token, yet the separator that ends it still
      replaces d. */
  function Tokens(s: string, d: char): seq<Token>
    decreases |s|
  {
    if s == [] || s[0] == '\0' then []
    else
      var l := Span(s);
      if l == |s| || s[l] == '\0' then Lead(d, s[..l])
      else Lead(d, s[..l]) + Tokens(s[l + 1..], s[l])
  }

  /** One step of the scan of s, for a run of length l ended by a separator. */
  lemma TokensStep(s: string, d: char, l: nat)
    requires l < |s| && Plain(s[..l]) && IsSeparator(s[l])
    ensures Tokens(s, d) == Lead(d, s[..l]) + Tokens(s[l + 1..], s[l])
  {
    SpanUnique(s, l);
    if l > 0 {
      assert s[..l][0] == s[0];
    }
  }

  /** The last step of the scan of s, for a run of length l ended by the end
      of s or a NUL. */
  lemma TokensLast(s: string, d: char, l: nat)
    requires l <= |s| && Plain(s[..l]) && (l == |s| || s[l] == '\0')
    ensures Tokens(s, d) == Lead(d, s[..l])
  {
    SpanUnique(s, l);
    if l > 0 {
      assert s[..l][0] == s[0];
    }
  }

  /** A plain non-empty string is a single token. */
  lemma TokensOfName(x: string, d: char)
    requires x != [] && Plain(x)
    ensures Tokens(x, d) == [Token(d, x)]
  {
    assert x[..|x|] == x;
    TokensLast(x, d, |x|);
  }

  /** Every token is a non-empty plain run, and its preceding separator is
      either d (for the first) or one of the three relation characters. */
  lemma {:induction false} TokensWellFormed(s: string, d: char)
    ensures forall t :: t in Tokens(s, d) ==> t.text != [] && Plain(t.text)
    ensures forall t :: t in Tokens(s, d) ==> t.sep == d || IsSeparator(t.sep)
    decreases |s|
  {
    if s == [] || s[0] == '\0' {
    } else {
      var l := Span(s);
      if l < |s| && s[l] != '\0' {
        TokensStep(s, d, l);
        TokensWellFormed(s[l + 1..], s[l]);
      } else {
        TokensLast(s, d, l);
      }
    }
  }

  /** The separators that precede the tokens, in order. */
  function TokenSeps(ts: seq<Token>): (r: seq<char>)
    ensures |r| == |ts| && forall k :: 0 <= k < |ts| ==> r[k] == ts[k].sep
  {
    seq(|ts|, k requires 0 <= k < |ts| => ts[k].sep)
  }

  lemma TokenSepsAppend(a: seq<Token>, b: seq<Token>)
    ensures TokenSeps(a + b) == TokenSeps(a) + TokenSeps(b)
  {
  }

  /** Only the separator immediately before a token matters: whatever the
      string x before a separator c (x holds no NUL), the tokens after c are
      the tokens of the rest with c as their preceding separator. */
  lemma {:induction false} TokensAfterSeparator(x: string, c: char, y: string, d: char)
    requires '\0' !in x && IsSeparator(c)
    ensures Tokens(x + [c] + y, d) == Tokens(x, d) + Tokens(y, c)
    decreases |x|, 1
  {
    var l := Span(x);
    if l < |x| {
      SeparatorInsideRun(x, c, y, d);
    } else {
      var z := x + [c] + y;
      assert z[..l] == x[..l];
      assert z[|x| + 1..] == y;
      TokensLast(x, d, l);
      TokensStep(z, d, l);
    }
  }

  /** The case of TokensAfterSeparator where x itself holds a separator. */
  lemma {:induction false} SeparatorInsideRun(x: string, c: char, y: string, d: char)
    requires '\0' !in x && IsSeparator(c) && Span(x) < |x|
    ensures Tokens(x + [c] + y, d) == Tokens(x, d) + Tokens(y, c)
    decreases |x|, 0
  {
    var z := x + [c] + y;
    var l := Span(x);
    var x' := x[l + 1..];
    assert z[..l] == x[..l];
    assert IsSeparator(x[l]) by { assert x[l] in x; }
    assert '\0' !in x' by { assert x == x[..l + 1] + x'; }
    assert z[l + 1..] == x' + [c] + y && z[l] == x[l];
    TokensStepAt(z, d, l, x[..l], x[l], x' + [c] + y);
    TokensStepAt(x, d, l, x[..l], x[l], x');
    TokensAfterSeparator(x', c, y, x[l]);
    Reassociate(Tokens(z, d), Tokens(x, d), Lead(d, x[..l]), Tokens(x', x[l]), Tokens(y, c));
  }

  /** TokensStep with the run, the separator and the rest named by the
      caller, so that the caller's slices need not be unfolded. */
  lemma TokensStepAt(s: string, d: char, l: nat, run: string, e: char, rest: string)
    requires l < |s| && Plain(s[..l]) && IsSeparator(s[l])
    requires run == s[..l] && e == s[l] && rest == s[l + 1..]
    ensures Tokens(s, d) == Lead(d, run) + Tokens(rest, e)
  {
    TokensStep(s, d, l);
  }

  /** Regrouping a concatenation of token sequences, kept apart from the
      token functions so that the solver does not unfold them. */
  lemma Reassociate(whole: seq<Token>, front: seq<Token>, a: seq<Token>, b: seq<Token>, c: seq<Token>)
    requires whole == a + (b + c) && front == a + b
    ensures whole == front + c
  {
  }

  /** A trailing separator is harmless: it yields no token. */
  lemma {:induction false} TrailingSeparator(s: string, c: char, d: char)
    requires '\0' !in s && IsSeparator(c)
    ensures Tokens(s + [c], d) == Tokens(s, d)
  {
    TokensAfterSeparator(s, c, [], d);
    assert s + [c] + [] == s + [c];
  }

  /** The scan stops at the first NUL: what follows it is never read. */
  lemma {:induction false} TokensStopAtNul(x: string, y: string, d: char)
    requires '\0' !in x
    ensures Tokens(x + ['\0'] + y, d) == Tokens(x, d)
    decreases |x|
  {
    var z := x + ['\0'] + y;
    var l := Span(x);
    assert z[..l] == x[..l];
    if l < |x| {
      var x' := x[l + 1..];
      assert IsSeparator(x[l]) by { assert x[l] in x; }
      assert '\0' !in x' by { assert x == x[..l + 1] + x'; }
      assert z[l + 1..] == x' + ['\0'] + y;
      TokensStopAtNul(x', y, x[l]);
      TokensStep(x, d, l);
      TokensStep(z, d, l);
    } else {
      TokensLast(x, d, l);
      TokensLast(z, d, l);
    }
  }

  /** Every token's preceding separator is a distinct character of s (or the
      initial d), so no separator occurs more often among the tokens than in
      the string. */
  lemma {:induction false} SeparatorsCounted(s: string, d: char, c: char)
    requires IsSeparator(c)
    ensures multiset(TokenSeps(Tokens(s, d)))[c] <= multiset(s)[c] + (if d == c then 1 else 0)
    decreases |s|
  {
    if s == [] || s[0] == '\0' {
    } else {
      var l := Span(s);
      var lead := Lead(d, s[..l]);
      assert multiset(TokenSeps(lead))[c] <= (if d == c then 1 else 0);
      if l < |s| && s[l] != '\0' {
        var rest := s[l + 1..];
        TokensStep(s, d, l);
        SeparatorsCounted(rest, s[l], c);
        TokenSepsAppend(lead, Tokens(rest, s[l]));
        CountAfterRun(s, l, c);
      }
    }
  }

  /** Splitting s after a run of l plain characters. */
  lemma CountAfterRun(s: string, l: nat, c: char)
    requires l < |s| && Plain(s[..l]) && IsSeparator(c)
    ensures multiset(s)[c] == (if s[l] == c then 1 else 0) + multiset(s[l + 1..])[c]
  {
    assert s == s[..l] + [s[l]] + s[l + 1..];
    assert c !in s[..l];
  }

  /** The C string s denotes: its characters up to the first NUL. */
  function CString(s: string): (r: string)
    ensures r <= s && '\0' !in r
    ensures |r| < |s| ==> s[|r|] == '\0'
  {
    if s == [] || s[0] == '\0' then [] else [s[0]] + CString(s[1..])
  }

  /** Scanning s reads exactly the C string it denotes. */
  lemma TokensOfCString(s: string, d: char)
    ensures Tokens(CString(s), d) == Tokens(s, d)
  {
    var r := CString(s);
    if |r| < |s| {
      assert s == r + ['\0'] + s[|r| + 1..];
      TokensStopAtNul(r, s[|r| + 1..], d);
    } else {
      assert r == s;
    }
  }
}
