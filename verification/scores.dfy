/**
 The score accumulator of the architecture-policy compiler, stated on values.

 After tokenizing and interning, a policy string is a sequence of mentions:
 an architecture id with the separator that came right before it.  The
 compiler keeps the id2arch side-array (whose last index is lastarch) and a
 running packed score that starts at 0x10001 (tier 1, rank 1).  A mention of
 an id whose slot is still zero first advances the score (by 0x10000 after a
 ':', by 1 after a '>', not at all after a '=' or at the start) and then
 stores it in the slot; a mention of an id whose slot is already non-zero
 changes nothing.

 Compile is that procedure as a function; ScoreOf says what each slot ends up
 holding without running it, and CompileMeaning proves the two agree.
 */
module PolicyScores {

  /** An interned token: the separator that came right before it ('\0' for
      the first token) and the architecture id the interner gave its text. */
  datatype Mention = Mention(sep: char, id: nat)

  /** The compiler's state: id2arch, of length lastarch + 1, and the score. */
  datatype Compiled = Compiled(table: seq<nat>, score: nat)

  /** Packed score of the first tier: tier 1 in the upper half, rank 1 in the
      lower half. */
  const Start: nat := 0x10001

  /** One tier in the packed score. */
  const TierStep: nat := 0x10000

  /** Slots kept beyond an id when the table is (re)allocated for it:
      lastarch = id + 255. */
  const Headroom: nat := 255

  /** What the separator before a newly scored token adds to the score. */
  function Inc(sep: char): (r: nat)
    ensures sep == ':' ==> r == TierStep
    ensures sep == '>' ==> r == 1
    ensures sep != ':' && sep != '>' ==> r == 0
  {
    if sep == ':' then TierStep else if sep == '>' then 1 else 0
  }

  /** n zeroed slots (what calloc and the memset after realloc produce). */
  function Zeros(n: nat): (z: seq<nat>)
    ensures |z| == n && forall k :: 0 <= k < n ==> z[k] == 0
  {
    seq(n, _ => 0)
  }

  /** The freshly allocated table: lastarch = noarch + 255, every slot zero
      except the noarch slot, which holds 1. */
  function Initial(noarch: nat): (c: Compiled)
    ensures |c.table| == noarch + Headroom + 1 && c.score == Start
    ensures forall k :: 0 <= k < |c.table| ==> c.table[k] == if k == noarch then 1 else 0
  {
    Compiled(Zeros(noarch + Headroom + 1)[noarch := 1], Start)
  }

  /** The table made large enough for id: when id >= lastarch it grows to
      lastarch = id + 255, keeping every earlier slot and zeroing the new
      ones; otherwise it is left as it is. */
  function Cover(table: seq<nat>, id: nat): (t: seq<nat>)
    requires table != []
    ensures id < |t| - 1
    ensures id >= |table| - 1 ==> |t| == id + Headroom + 1
    ensures id < |table| - 1 ==> t == table
    ensures |t| >= |table| && t[..|table|] == table
    ensures forall k :: |table| <= k < |t| ==> t[k] == 0
  {
    if id >= |table| - 1 then table + Zeros(id + Headroom + 1 - |table|) else table
  }

  /** One iteration of the compiler's loop for a non-empty token. */
  function Advance(c: Compiled, m: Mention): (r: Compiled)
    requires c.table != []
    ensures |r.table| >= |c.table|
  {
    var t := Cover(c.table, m.id);
    if t[m.id] == 0 then
      var score := c.score + Inc(m.sep);
      Compiled(t[m.id := score], score)
    else
      Compiled(t, c.score)
  }

  /** The state after all mentions, taken in order from the initial table. */
  function Compile(ms: seq<Mention>, noarch: nat): (c: Compiled)
    ensures |c.table| >= noarch + Headroom + 1
  {
    if ms == [] then Initial(noarch)
    else Advance(Compile(ms[..|ms| - 1], noarch), ms[|ms| - 1])
  }

  // ---------------------------------------------------------------------
  // What the slots hold, stated without running the loop
  // ---------------------------------------------------------------------

  /** m names an id that is neither noarch nor mentioned before it. */
  predicate IsNew(prefix: seq<Mention>, m: Mention, noarch: nat) {
    m.id != noarch && forall j :: 0 <= j < |prefix| ==> prefix[j].id != m.id
  }

  /** The number of first mentions preceded by ':' (tier boundaries taken). */
  function Tiers(ms: seq<Mention>, noarch: nat): nat {
    if ms == [] then 0
    else
      var p, m := ms[..|ms| - 1], ms[|ms| - 1];
      Tiers(p, noarch) + (if IsNew(p, m, noarch) && m.sep == ':' then 1 else 0)
  }

  /** The number of first mentions preceded by '>' (soft ranks taken). */
  function Ranks(ms: seq<Mention>, noarch: nat): nat {
    if ms == [] then 0
    else
      var p, m := ms[..|ms| - 1], ms[|ms| - 1];
      Ranks(p, noarch) + (if IsNew(p, m, noarch) && m.sep == '>' then 1 else 0)
  }

  /** Tiers and Ranks of a sequence that ends with mention m. */
  lemma CountsSnoc(p: seq<Mention>, m: Mention, noarch: nat)
    ensures Tiers(p + [m], noarch) == Tiers(p, noarch) + (if IsNew(p, m, noarch) && m.sep == ':' then 1 else 0)
    ensures Ranks(p + [m], noarch) == Ranks(p, noarch) + (if IsNew(p, m, noarch) && m.sep == '>' then 1 else 0)
  {
    assert (p + [m])[..|p|] == p;
  }

  predicate Mentioned(ms: seq<Mention>, id: nat) {
    exists k :: 0 <= k < |ms| && ms[k].id == id
  }

  /** The position of the first mention of id. */
  function FirstIndex(ms: seq<Mention>, id: nat): (k: nat)
    requires Mentioned(ms, id)
    ensures k < |ms| && ms[k].id == id
    ensures forall j :: 0 <= j < k ==> ms[j].id != id
  {
    if ms[0].id == id then 0
    else
      assert Mentioned(ms[1..], id) by {
        var k :| 0 <= k < |ms| && ms[k].id == id;
        assert ms[1..][k - 1].id == id;
      }
      1 + FirstIndex(ms[1..], id)
  }

  /** The value the slot of id holds after all mentions: 1 for noarch; for an
      id first mentioned at position k, the start score plus one tier per ':'
      and one rank per '>' that preceded a first mention up to and including
      position k; zero for every other id. */
  function ScoreOf(ms: seq<Mention>, noarch: nat, id: nat): nat {
    if id == noarch then 1
    else if Mentioned(ms, id) then
      var k := FirstIndex(ms, id);
      Start + TierStep * Tiers(ms[..k + 1], noarch) + Ranks(ms[..k + 1], noarch)
    else 0
  }

  // ---------------------------------------------------------------------
  // Compile agrees with ScoreOf
  // ---------------------------------------------------------------------

  /** FirstIndex is determined by its two properties. */
  lemma FirstIndexUnique(ms: seq<Mention>, id: nat, k: nat)
    requires k < |ms| && ms[k].id == id
    requires forall j :: 0 <= j < k ==> ms[j].id != id
    ensures Mentioned(ms, id) && FirstIndex(ms, id) == k
  {
  }

  /** How ScoreOf changes when one mention m is appended to p. */
  lemma ScoreOfSnoc(p: seq<Mention>, m: Mention, noarch: nat, id: nat)
    ensures id != m.id || !IsNew(p, m, noarch) ==>
              ScoreOf(p + [m], noarch, id) == ScoreOf(p, noarch, id)
    ensures id == m.id && IsNew(p, m, noarch) ==>
              ScoreOf(p + [m], noarch, id) == Start + TierStep * Tiers(p + [m], noarch) + Ranks(p + [m], noarch)
  {
    var ms := p + [m];
    assert ms[..|p|] == p;
    if id == noarch {
    } else if Mentioned(p, id) {
      var k := FirstIndex(p, id);
      FirstIndexUnique(ms, id, k);
      assert ms[..k + 1] == p[..k + 1];
    } else if id == m.id {
      assert IsNew(p, m, noarch);
      FirstIndexUnique(ms, id, |p|);
      assert ms[..|p| + 1] == ms;
    } else {
      assert !Mentioned(ms, id);
    }
  }

  /** The slots of the grown table before m's slot is written: those of the
      old table, and zero in the new region. */
  lemma CoverMeaning(p: seq<Mention>, m: Mention, noarch: nat)
    requires noarch < |Compile(p, noarch).table| - 1
    requires forall k :: 0 <= k < |p| ==> p[k].id < |Compile(p, noarch).table| - 1
    requires forall id :: 0 <= id < |Compile(p, noarch).table| ==>
               Compile(p, noarch).table[id] == ScoreOf(p, noarch, id)
    ensures var t := Cover(Compile(p, noarch).table, m.id);
            forall id :: 0 <= id < |t| ==> t[id] == ScoreOf(p, noarch, id)
  {
    var c0 := Compile(p, noarch);
    var t := Cover(c0.table, m.id);
    forall id | 0 <= id < |t|
      ensures t[id] == ScoreOf(p, noarch, id)
    {
      if id < |c0.table| {
        assert t[id] == t[..|c0.table|][id];
      } else {
        assert !Mentioned(p, id);
      }
    }
  }

  /** An id's slot is still zero exactly when a mention of it would be new. */
  lemma ZeroIffNew(p: seq<Mention>, m: Mention, noarch: nat)
    ensures ScoreOf(p, noarch, m.id) == 0 <==> IsNew(p, m, noarch)
  {
    if !IsNew(p, m, noarch) && m.id != noarch {
      var j :| 0 <= j < |p| && p[j].id == m.id;
      assert Mentioned(p, m.id);
    }
  }

  /** The main theorem: the compiled table holds exactly ScoreOf at every
      index; every mentioned id and noarch lie below lastarch, and the slot at
      lastarch is zero; the final score counts every tier and rank taken. */
  lemma {:induction false} CompileMeaning(ms: seq<Mention>, noarch: nat)
    ensures var c := Compile(ms, noarch);
            c.score == Start + TierStep * Tiers(ms, noarch) + Ranks(ms, noarch)
    ensures noarch < |Compile(ms, noarch).table| - 1
    ensures forall k :: 0 <= k < |ms| ==> ms[k].id < |Compile(ms, noarch).table| - 1
    ensures forall id :: 0 <= id < |Compile(ms, noarch).table| ==>
              Compile(ms, noarch).table[id] == ScoreOf(ms, noarch, id)
  {
    if ms == [] {
      forall id | 0 <= id < |Compile(ms, noarch).table|
        ensures Compile(ms, noarch).table[id] == ScoreOf(ms, noarch, id)
      {
        assert !Mentioned(ms, id);
      }
    } else {
      var p, m := ms[..|ms| - 1], ms[|ms| - 1];
      assert ms == p + [m];
      CompileMeaning(p, noarch);
      var c0 := Compile(p, noarch);
      var t := Cover(c0.table, m.id);
      CoverMeaning(p, m, noarch);
      var c := Compile(ms, noarch);
      assert c == Advance(c0, m);
      assert t[m.id] == ScoreOf(p, noarch, m.id);
      ZeroIffNew(p, m, noarch);
      forall id | 0 <= id < |c.table|
        ensures c.table[id] == ScoreOf(ms, noarch, id)
      {
        ScoreOfSnoc(p, m, noarch, id);
      }
      forall k | 0 <= k < |ms|
        ensures ms[k].id < |c.table| - 1
      {
        if k < |p| {
          assert ms[k] == p[k];
        }
      }
    }
  }

  /** The slot of an id first mentioned at position k holds the start score
      plus the tiers and ranks taken up to and including position k. */
  lemma FirstMentionScore(ms: seq<Mention>, noarch: nat, k: nat)
    requires k < |ms| && IsNew(ms[..k], ms[k], noarch)
    ensures var t := Compile(ms, noarch).table;
            ms[k].id < |t| &&
            t[ms[k].id] == Start + TierStep * Tiers(ms[..k + 1], noarch) + Ranks(ms[..k + 1], noarch)
  {
    CompileMeaning(ms, noarch);
    assert forall j :: 0 <= j < k ==> ms[..k][j] == ms[j];
    FirstIndexUnique(ms, ms[k].id, k);
  }

  /** The slot of a mentioned id other than noarch, read off its first
      mention. */
  lemma MentionedScore(ms: seq<Mention>, noarch: nat, id: nat, k: nat)
    requires id != noarch && Mentioned(ms, id) && k == FirstIndex(ms, id)
    ensures var t := Compile(ms, noarch).table;
            id < |t| && t[id] == Start + TierStep * Tiers(ms[..k + 1], noarch) + Ranks(ms[..k + 1], noarch)
  {
    MentionBelowLast(ms, noarch, k);
    SlotMeaning(ms, noarch, id);
  }

  /** CompileMeaning for the mention at position k. */
  lemma MentionBelowLast(ms: seq<Mention>, noarch: nat, k: nat)
    requires k < |ms|
    ensures ms[k].id < |Compile(ms, noarch).table| - 1
  {
    CompileMeaning(ms, noarch);
  }

  /** CompileMeaning for the slot of one id. */
  lemma SlotMeaning(ms: seq<Mention>, noarch: nat, id: nat)
    requires id < |Compile(ms, noarch).table|
    ensures Compile(ms, noarch).table[id] == ScoreOf(ms, noarch, id)
  {
    CompileMeaning(ms, noarch);
  }

  /** The slot at lastarch is always zero. */
  lemma LastSlotZero(ms: seq<Mention>, noarch: nat)
    ensures var t := Compile(ms, noarch).table; t[|t| - 1] == 0
  {
    CompileMeaning(ms, noarch);
    var t := Compile(ms, noarch).table;
    assert !Mentioned(ms, |t| - 1);
  }

  /** The noarch slot holds exactly 1, whether or not noarch is mentioned. */
  lemma NoarchScoresOne(ms: seq<Mention>, noarch: nat)
    ensures Compile(ms, noarch).table[noarch] == 1
  {
    CompileMeaning(ms, noarch);
  }

  /** First mention wins: a mention of noarch or of an id already mentioned
      changes neither the table nor the running score. */
  lemma RepeatedMention(p: seq<Mention>, m: Mention, noarch: nat)
    requires !IsNew(p, m, noarch)
    ensures Compile(p + [m], noarch) == Compile(p, noarch)
  {
    var ms := p + [m];
    assert ms[..|ms| - 1] == p;
    CompileMeaning(p, noarch);
    var c0 := Compile(p, noarch);
    if m.id != noarch {
      var j :| 0 <= j < |p| && p[j].id == m.id;
      assert Mentioned(p, m.id);
    }
    assert c0.table[m.id] == ScoreOf(p, noarch, m.id) > 0;
  }

  /** Separator semantics: the first mention of a new id advances the score
      by Inc of its separator and stores the advanced score in its slot; every
      other slot keeps its value, and the slots the growth adds are zero. */
  lemma NewMention(p: seq<Mention>, m: Mention, noarch: nat)
    requires IsNew(p, m, noarch)
    ensures var c0, c := Compile(p, noarch), Compile(p + [m], noarch);
            c.score == c0.score + Inc(m.sep) && c.table[m.id] == c.score &&
            (forall id :: 0 <= id < |c0.table| && id != m.id ==> c.table[id] == c0.table[id]) &&
            (forall id :: |c0.table| <= id < |c.table| && id != m.id ==> c.table[id] == 0)
  {
    var ms := p + [m];
    assert ms[..|ms| - 1] == p;
    CompileMeaning(p, noarch);
    var c0 := Compile(p, noarch);
    var t := Cover(c0.table, m.id);
    CoverMeaning(p, m, noarch);
    assert !Mentioned(p, m.id);
    assert t[m.id] == 0;
    forall id | 0 <= id < |c0.table|
      ensures t[id] == c0.table[id]
    {
      assert t[id] == t[..|c0.table|][id];
    }
  }

  // ---------------------------------------------------------------------
  // Order and range of the scores
  // ---------------------------------------------------------------------

  /** The counts only grow along the mentions. */
  lemma {:induction false} CountsGrow(ms: seq<Mention>, noarch: nat, i: nat)
    requires i <= |ms|
    ensures Tiers(ms[..i], noarch) <= Tiers(ms, noarch)
    ensures Ranks(ms[..i], noarch) <= Ranks(ms, noarch)
    decreases |ms|
  {
    if i < |ms| {
      var p := ms[..|ms| - 1];
      assert p[..i] == ms[..i];
      CountsGrow(p, noarch, i);
    } else {
      assert ms[..i] == ms;
    }
  }

  /** Every non-zero slot is either the noarch slot, holding 1, or holds at
      least the start score, so every scored id other than noarch ranks after
      noarch. */
  lemma ScoresAboveNoarch(ms: seq<Mention>, noarch: nat, id: nat)
    requires id < |Compile(ms, noarch).table|
    ensures var v := Compile(ms, noarch).table[id];
            (id == noarch && v == 1) || (id != noarch && (v == 0 || v >= Start))
    ensures id != noarch && Mentioned(ms, id) ==> Compile(ms, noarch).table[id] >= Start
  {
    CompileMeaning(ms, noarch);
  }

  /** Scores follow the order of first mention: an id first mentioned later
      never scores lower, and it scores higher by at least what its own
      separator adds (a whole tier after ':', a rank after '>'). */
  lemma ScoresFollowFirstMention(ms: seq<Mention>, noarch: nat, x: nat, y: nat)
    requires x != noarch && y != noarch && Mentioned(ms, x) && Mentioned(ms, y)
    requires FirstIndex(ms, x) < FirstIndex(ms, y)
    ensures var t := Compile(ms, noarch).table;
            x < |t| && y < |t| && t[x] + Inc(ms[FirstIndex(ms, y)].sep) <= t[y]
  {
    var kx, ky := FirstIndex(ms, x), FirstIndex(ms, y);
    MentionedScore(ms, noarch, x, kx);
    MentionedScore(ms, noarch, y, ky);
    var before := ms[..ky];
    FirstIsNew(ms, noarch, y, ky);
    FirstMentionCounts(ms, noarch, ky);
    assert before[..kx + 1] == ms[..kx + 1];
    CountsGrow(before, noarch, kx + 1);
    var t := Compile(ms, noarch).table;
    StepOrder(t[x], Tiers(ms[..kx + 1], noarch), Ranks(ms[..kx + 1], noarch),
              Tiers(before, noarch), Ranks(before, noarch),
              t[y], Tiers(ms[..ky + 1], noarch), Ranks(ms[..ky + 1], noarch), ms[ky].sep);
  }

  /** The first mention of an id other than noarch is new. */
  lemma FirstIsNew(ms: seq<Mention>, noarch: nat, id: nat, k: nat)
    requires id != noarch && Mentioned(ms, id) && k == FirstIndex(ms, id)
    ensures IsNew(ms[..k], ms[k], noarch)
  {
    assert forall j :: 0 <= j < k ==> ms[..k][j] == ms[j];
  }

  /** A score vx built from no more tiers and ranks than those taken before
      a first mention, raised by what that mention's separator adds, is at
      most the score vy the mention receives. */
  lemma StepOrder(vx: nat, tx: nat, rx: nat, tb: nat, rb: nat, vy: nat, ty: nat, ry: nat, sep: char)
    requires vx == Start + TierStep * tx + rx && vy == Start + TierStep * ty + ry
    requires tx <= tb && rx <= rb
    requires ty == tb + (if sep == ':' then 1 else 0) && ry == rb + (if sep == '>' then 1 else 0)
    ensures vx + Inc(sep) <= vy
  {
  }

  /** The counts up to and including the first mention at position k are
      those before it plus what its separator takes. */
  lemma FirstMentionCounts(ms: seq<Mention>, noarch: nat, k: nat)
    requires k < |ms| && IsNew(ms[..k], ms[k], noarch)
    ensures Tiers(ms[..k + 1], noarch) == Tiers(ms[..k], noarch) + (if ms[k].sep == ':' then 1 else 0)
    ensures Ranks(ms[..k + 1], noarch) == Ranks(ms[..k], noarch) + (if ms[k].sep == '>' then 1 else 0)
  {
    var py := ms[..k + 1];
    assert py[..k] == ms[..k];
    assert py[k] == ms[k];
  }

  /** Mentions that follow one another with '=' share one score. */
  lemma EqualsSharesScore(ms: seq<Mention>, noarch: nat, x: nat, y: nat)
    requires x != noarch && y != noarch && Mentioned(ms, x) && Mentioned(ms, y)
    requires FirstIndex(ms, y) == FirstIndex(ms, x) + 1 && ms[FirstIndex(ms, y)].sep == '='
    ensures var t := Compile(ms, noarch).table;
            x < |t| && y < |t| && t[x] == t[y]
  {
    var kx, ky := FirstIndex(ms, x), FirstIndex(ms, y);
    MentionedScore(ms, noarch, x, kx);
    MentionedScore(ms, noarch, y, ky);
    assert ms[..ky + 1][..ky] == ms[..kx + 1];
  }

  /** The packed encoding: as long as fewer than 0xFFFF ranks are taken, the
      rank never carries into the tier half, so the upper half of a score is
      its tier and the lower half its rank. */
  lemma PackedScore(ms: seq<Mention>, noarch: nat, id: nat)
    requires id != noarch && Mentioned(ms, id)
    requires Ranks(ms, noarch) < 0xFFFF
    ensures var t, k := Compile(ms, noarch).table, FirstIndex(ms, id);
            id < |t| &&
            t[id] / TierStep == 1 + Tiers(ms[..k + 1], noarch) &&
            t[id] % TierStep == 1 + Ranks(ms[..k + 1], noarch)
  {
    var k := FirstIndex(ms, id);
    MentionedScore(ms, noarch, id, k);
    CountsGrow(ms, noarch, k + 1);
    var tier, rank := 1 + Tiers(ms[..k + 1], noarch), 1 + Ranks(ms[..k + 1], noarch);
    Unpack(tier, rank);
  }

  /** A rank below TierStep does not carry into the tier half. */
  lemma Unpack(tier: nat, rank: nat)
    requires rank < TierStep
    ensures (TierStep * tier + rank) / TierStep == tier
    ensures (TierStep * tier + rank) % TierStep == rank
  {
  }

  /** With fewer than 0xFFFF tiers and ranks, every slot fits the source's
      32-bit unsigned score. */
  lemma ScoresFit(ms: seq<Mention>, noarch: nat)
    requires Tiers(ms, noarch) < 0xFFFF && Ranks(ms, noarch) < 0xFFFF
    ensures forall id :: 0 <= id < |Compile(ms, noarch).table| ==>
              Compile(ms, noarch).table[id] < 0x1_0000_0000
  {
    CompileMeaning(ms, noarch);
    forall id | 0 <= id < |Compile(ms, noarch).table| && id != noarch && Mentioned(ms, id)
      ensures Compile(ms, noarch).table[id] < 0x1_0000_0000
    {
      var k := FirstIndex(ms, id);
      CountsGrow(ms, noarch, k + 1);
    }
  }

  /** The separators of the mentions, in order. */
  function Seps(ms: seq<Mention>): (r: seq<char>)
    ensures |r| == |ms| && forall k :: 0 <= k < |ms| ==> r[k] == ms[k].sep
  {
    seq(|ms|, k requires 0 <= k < |ms| => ms[k].sep)
  }

  /** A tier is taken only at a ':' and a rank only at a '>'. */
  lemma {:induction false} CountsBySeparator(ms: seq<Mention>, noarch: nat)
    ensures Tiers(ms, noarch) <= multiset(Seps(ms))[':']
    ensures Ranks(ms, noarch) <= multiset(Seps(ms))['>']
  {
    if ms != [] {
      var p := ms[..|ms| - 1];
      CountsBySeparator(p, noarch);
      assert Seps(ms) == Seps(p) + [ms[|ms| - 1].sep];
    }
  }
}
