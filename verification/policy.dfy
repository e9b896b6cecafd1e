/**
 A policy string compiled end to end: tokens, interned to mentions, run
 through the score accumulator.  The interner (pool_strn2id) is a parameter:
 any deterministic map from a token's text to an id.
 */
module ArchPolicy {
  import opened PolicyTokens
  import opened PolicyScores

  /** Interning every token's text, keeping its preceding separator. */
  function Resolve(ts: seq<Token>, strn2id: string -> nat): (r: seq<Mention>)
    ensures |r| == |ts| && Seps(r) == TokenSeps(ts)
    ensures forall k :: 0 <= k < |ts| ==> r[k].id == strn2id(ts[k].text)
  {
    seq(|ts|, k requires 0 <= k < |ts| => Mention(ts[k].sep, strn2id(ts[k].text)))
  }

  lemma ResolveSnoc(ts: seq<Token>, t: Token, strn2id: string -> nat)
    ensures Resolve(ts + [t], strn2id) == Resolve(ts, strn2id) + [Mention(t.sep, strn2id(t.text))]
  {
  }

  /** The mentions of a whole policy string (nothing precedes its first
      token). */
  function Mentions(s: string, strn2id: string -> nat): seq<Mention> {
    Resolve(Tokens(s, '\0'), strn2id)
  }

  /** The id2arch table and final score that compiling s produces: noarch
      scores 1 and lies below lastarch, and the slot at lastarch is 0. */
  function Policy(s: string, strn2id: string -> nat, noarch: nat): (c: Compiled)
    ensures noarch < |c.table| - 1 && c.table[noarch] == 1 && c.table[|c.table| - 1] == 0
  {
    var ms := Mentions(s, strn2id);
    CompileMeaning(ms, noarch);
    LastSlotZero(ms, noarch);
    Compile(ms, noarch)
  }

  /** A policy string is read as a C string: what follows its first NUL
      does not change the table. */
  lemma PolicyOfCString(s: string, strn2id: string -> nat, noarch: nat)
    ensures Policy(CString(s), strn2id, noarch) == Policy(s, strn2id, noarch)
  {
    TokensOfCString(s, '\0');
  }

  /** Fewer than 0xFFFF ':' and fewer than 0xFFFF '>' characters: the 16-bit
      rank cannot carry into the tier and the tier cannot overflow 32 bits. */
  predicate SeparatorsFit(s: string) {
    multiset(s)[':'] < 0xFFFF && multiset(s)['>'] < 0xFFFF
  }

  /** Under SeparatorsFit every slot of the table fits the source's unsigned
      32-bit score, and the packed halves of every score read back as its
      tier and rank (PackedScore applies). */
  lemma PolicyFits(s: string, strn2id: string -> nat, noarch: nat)
    requires SeparatorsFit(s)
    ensures Tiers(Mentions(s, strn2id), noarch) < 0xFFFF
    ensures Ranks(Mentions(s, strn2id), noarch) < 0xFFFF
    ensures forall id :: 0 <= id < |Policy(s, strn2id, noarch).table| ==>
              Policy(s, strn2id, noarch).table[id] < 0x1_0000_0000
  {
    var ms := Mentions(s, strn2id);
    CountsBySeparator(ms, noarch);
    SeparatorsCounted(s, '\0', ':');
    SeparatorsCounted(s, '\0', '>');
    ScoresFit(ms, noarch);
  }

  // ---------------------------------------------------------------------
  // Worked examples, for any architecture names a, b, c, d
  // ---------------------------------------------------------------------

  /** An architecture name: a non-empty run without separators or NUL. */
  predicate Name(x: string) {
    x != [] && Plain(x)
  }

  /** The tokens of "a=b:c>d". */
  lemma TokensOfEqualsTierRank(a: string, b: string, c: string, d: string)
    requires Name(a) && Name(b) && Name(c) && Name(d)
    ensures Tokens(a + "=" + b + ":" + c + ">" + d, '\0') ==
              [Token('\0', a), Token('=', b), Token(':', c), Token('>', d)]
  {
    var s3 := c + ">" + d;
    var s2 := b + ":" + s3;
    assert a + "=" + b + ":" + c + ">" + d == a + "=" + s2;
    assert '\0' !in a && '\0' !in b && '\0' !in c by {
      assert !IsStop(a[0]) && !IsStop(b[0]) && !IsStop(c[0]);
    }
    TokensAfterSeparator(a, '=', s2, '\0');
    TokensAfterSeparator(b, ':', s3, '=');
    TokensAfterSeparator(c, '>', d, ':');
    TokensOfName(a, '\0');
    TokensOfName(b, '=');
    TokensOfName(c, ':');
    TokensOfName(d, '>');
  }

  /** The tokens of "a:b:a". */
  lemma TokensOfRepeated(a: string, b: string)
    requires Name(a) && Name(b)
    ensures Tokens(a + ":" + b + ":" + a, '\0') == [Token('\0', a), Token(':', b), Token(':', a)]
  {
    var s2 := b + ":" + a;
    assert a + ":" + b + ":" + a == a + ":" + s2;
    TokensAfterSeparator(a, ':', s2, '\0');
    TokensAfterSeparator(b, ':', a, ':');
    TokensOfName(a, '\0');
    TokensOfName(b, ':');
    TokensOfName(a, ':');
  }

  /** The tokens of "a:>b": the empty run between the two separators yields
      none. */
  lemma TokensOfEmptyRun(a: string, b: string)
    requires Name(a) && Name(b)
    ensures Tokens(a + ":>" + b, '\0') == [Token('\0', a), Token('>', b)]
  {
    assert a + ":>" + b == a + ":" + (">" + b);
    assert ">" + b == [] + ">" + b;
    TokensAfterSeparator(a, ':', ">" + b, '\0');
    TokensAfterSeparator([], '>', b, ':');
    TokensOfName(a, '\0');
    TokensOfName(b, '>');
  }

  /** "a=b:c>d": a and b share the first tier, c opens the second tier, and
      d ranks one step below c within it. */
  lemma ExampleEqualsTierRank(a: string, b: string, c: string, d: string, strn2id: string -> nat, noarch: nat)
    requires Name(a) && Name(b) && Name(c) && Name(d)
    requires var ia, ib, ic, id := strn2id(a), strn2id(b), strn2id(c), strn2id(d);
             ia != ib && ia != ic && ia != id && ib != ic && ib != id && ic != id &&
             noarch != ia && noarch != ib && noarch != ic && noarch != id
    ensures var t := Policy(a + "=" + b + ":" + c + ">" + d, strn2id, noarch).table;
            strn2id(a) < |t| && strn2id(b) < |t| && strn2id(c) < |t| && strn2id(d) < |t| &&
            t[strn2id(a)] == 0x10001 && t[strn2id(b)] == 0x10001 &&
            t[strn2id(c)] == 0x20001 && t[strn2id(d)] == 0x20002
  {
    var ia, ib, ic, id := strn2id(a), strn2id(b), strn2id(c), strn2id(d);
    TokensOfEqualsTierRank(a, b, c, d);
    assert Mentions(a + "=" + b + ":" + c + ">" + d, strn2id) ==
      [Mention('\0', ia), Mention('=', ib), Mention(':', ic), Mention('>', id)];
    EqualsTierRankScores(ia, ib, ic, id, noarch);
  }

  /** The scores of four distinct ids mentioned as "a=b:c>d". */
  lemma EqualsTierRankScores(a: nat, b: nat, c: nat, d: nat, noarch: nat)
    requires a != b && a != c && a != d && b != c && b != d && c != d
    requires noarch != a && noarch != b && noarch != c && noarch != d
    ensures var t := Compile([Mention('\0', a), Mention('=', b), Mention(':', c), Mention('>', d)], noarch).table;
            a < |t| && b < |t| && c < |t| && d < |t| &&
            t[a] == 0x10001 && t[b] == 0x10001 && t[c] == 0x20001 && t[d] == 0x20002
  {
    var m1, m2, m3, m4 := Mention('\0', a), Mention('=', b), Mention(':', c), Mention('>', d);
    var ms := [m1, m2, m3, m4];
    var t := Compile(ms, noarch).table;
    assert ms[..0] == [] && ms[..1] == [m1] && ms[..2] == [m1, m2] && ms[..3] == [m1, m2, m3] && ms[..4] == ms;
    EqualsTierRankCounts(a, b, c, d, noarch);
    assert a < |t| && t[a] == 0x10001 by { FirstMentionScore(ms, noarch, 0); }
    assert b < |t| && t[b] == 0x10001 by { FirstMentionScore(ms, noarch, 1); }
    assert c < |t| && t[c] == 0x20001 by { FirstMentionScore(ms, noarch, 2); }
    assert d < |t| && t[d] == 0x20002 by { FirstMentionScore(ms, noarch, 3); }
  }

  /** The tiers and ranks taken along "a=b:c>d". */
  lemma EqualsTierRankCounts(a: nat, b: nat, c: nat, d: nat, noarch: nat)
    requires a != b && a != c && a != d && b != c && b != d && c != d
    requires noarch != a && noarch != b && noarch != c && noarch != d
    ensures var m1, m2, m3, m4 := Mention('\0', a), Mention('=', b), Mention(':', c), Mention('>', d);
            Tiers([m1], noarch) == 0 && Ranks([m1], noarch) == 0 &&
            Tiers([m1, m2], noarch) == 0 && Ranks([m1, m2], noarch) == 0 &&
            Tiers([m1, m2, m3], noarch) == 1 && Ranks([m1, m2, m3], noarch) == 0 &&
            Tiers([m1, m2, m3, m4], noarch) == 1 && Ranks([m1, m2, m3, m4], noarch) == 1
  {
    var m1, m2, m3, m4 := Mention('\0', a), Mention('=', b), Mention(':', c), Mention('>', d);
    assert [m1] == [] + [m1] && [m1, m2] == [m1] + [m2] && [m1, m2, m3] == [m1, m2] + [m3];
    assert [m1, m2, m3, m4] == [m1, m2, m3] + [m4];
    CountsSnoc([], m1, noarch);
    CountsSnoc([m1], m2, noarch);
    CountsSnoc([m1, m2], m3, noarch);
    CountsSnoc([m1, m2, m3], m4, noarch);
  }

  /** "a:b:a": the second mention of a keeps a's first score and does not
      open a third tier, so the running score stays at b's. */
  lemma ExampleRepeatedToken(a: string, b: string, strn2id: string -> nat, noarch: nat)
    requires Name(a) && Name(b)
    requires strn2id(a) != strn2id(b) && noarch != strn2id(a) && noarch != strn2id(b)
    ensures var c := Policy(a + ":" + b + ":" + a, strn2id, noarch);
            strn2id(a) < |c.table| && strn2id(b) < |c.table| &&
            c.table[strn2id(a)] == 0x10001 && c.table[strn2id(b)] == 0x20001 &&
            c.score == 0x20001
  {
    var ia, ib := strn2id(a), strn2id(b);
    TokensOfRepeated(a, b);
    assert Mentions(a + ":" + b + ":" + a, strn2id) ==
      [Mention('\0', ia), Mention(':', ib), Mention(':', ia)];
    RepeatedScores(ia, ib, noarch);
  }

  /** The table and score of two distinct ids mentioned as "a:b:a". */
  lemma RepeatedScores(a: nat, b: nat, noarch: nat)
    requires a != b && noarch != a && noarch != b
    ensures var c := Compile([Mention('\0', a), Mention(':', b), Mention(':', a)], noarch);
            a < |c.table| && b < |c.table| &&
            c.table[a] == 0x10001 && c.table[b] == 0x20001 && c.score == 0x20001
  {
    var m1, m2, m3 := Mention('\0', a), Mention(':', b), Mention(':', a);
    var p := [m1, m2];
    assert [m1, m2, m3] == p + [m3];
    assert !IsNew(p, m3, noarch) by { assert p[0].id == a; }
    RepeatedMention(p, m3, noarch);
    TwoTierScores(a, b, noarch);
  }

  /** The table and score of two distinct ids mentioned as "a:b". */
  lemma TwoTierScores(a: nat, b: nat, noarch: nat)
    requires a != b && noarch != a && noarch != b
    ensures var c := Compile([Mention('\0', a), Mention(':', b)], noarch);
            a < |c.table| && b < |c.table| &&
            c.table[a] == 0x10001 && c.table[b] == 0x20001 && c.score == 0x20001
  {
    var m1, m2 := Mention('\0', a), Mention(':', b);
    var p := [m1, m2];
    assert [m1] == [] + [m1] && p == [m1] + [m2];
    CountsSnoc([], m1, noarch);
    CountsSnoc([m1], m2, noarch);
    CompileMeaning(p, noarch);
    assert p[..0] == [] && p[..1] == [m1] && p[..2] == p;
    FirstMentionScore(p, noarch, 0);
    FirstMentionScore(p, noarch, 1);
  }

  /** "a:>b": only the '>' right before b counts, so b ranks one step below
      a in a's tier. */
  lemma ExampleEmptyRun(a: string, b: string, strn2id: string -> nat, noarch: nat)
    requires Name(a) && Name(b)
    requires strn2id(a) != strn2id(b) && noarch != strn2id(a) && noarch != strn2id(b)
    ensures var t := Policy(a + ":>" + b, strn2id, noarch).table;
            strn2id(a) < |t| && strn2id(b) < |t| &&
            t[strn2id(a)] == 0x10001 && t[strn2id(b)] == 0x10002
  {
    var ia, ib := strn2id(a), strn2id(b);
    TokensOfEmptyRun(a, b);
    assert Mentions(a + ":>" + b, strn2id) == [Mention('\0', ia), Mention('>', ib)];
    EmptyRunScores(ia, ib, noarch);
  }

  /** The scores of two distinct ids mentioned as "a>b". */
  lemma EmptyRunScores(a: nat, b: nat, noarch: nat)
    requires a != b && noarch != a && noarch != b
    ensures var t := Compile([Mention('\0', a), Mention('>', b)], noarch).table;
            a < |t| && b < |t| && t[a] == 0x10001 && t[b] == 0x10002
  {
    var m1, m2 := Mention('\0', a), Mention('>', b);
    var ms := [m1, m2];
    assert ms[..0] == [] && ms[..1] == [m1] && ms[..2] == ms && ms == [m1] + [m2];
    assert [m1] == [] + [m1];
    CountsSnoc([], m1, noarch);
    CountsSnoc([m1], m2, noarch);
    FirstMentionScore(ms, noarch, 0);
    FirstMentionScore(ms, noarch, 1);
  }

  /** A policy of a single name permits that one architecture, at tier 1
      rank 1, besides noarch. */
  lemma ExampleSingleName(a: string, strn2id: string -> nat, noarch: nat)
    requires Name(a) && noarch != strn2id(a)
    ensures var t := Policy(a, strn2id, noarch).table;
            strn2id(a) < |t| && t[strn2id(a)] == 0x10001 && t[noarch] == 1
  {
    var ia := strn2id(a);
    TokensOfName(a, '\0');
    var ms := Mentions(a, strn2id);
    assert ms == [Mention('\0', ia)];
    CompileMeaning(ms, noarch);
    FirstIndexUnique(ms, ia, 0);
    assert ms[..1] == ms && ms[..0] == [];
  }
}
