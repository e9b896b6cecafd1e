/**
 The architecture state of a pool: the id2arch score table that a policy
 string compiles to, its last usable index lastarch, and the lazily filled
 id2color cache of the word-size classifier.  The three entry points change
 that state in place; each is proved against the pure functions of the other
 modules.
 */
module PoolArch {
  import opened PolicyTokens
  import opened PolicyScores
  import opened ArchPolicy
  import opened ArchColors
  import opened ArchAliases

  datatype Option<T> = None | Some(value: T)

  /** A fresh cache: calloc gives every slot the zero byte, "not yet known". */
  function Unfilled(n: nat): (r: seq<Option<Color>>)
    ensures |r| == n && forall k :: 0 <= k < n ==> r[k] == None
  {
    seq(n, _ => None)
  }

  /** solv_realloc2 followed by the memset of the new region: a copy of a
      lengthened to n slots, the slots past the old end zero. */
  method Grow(a: array<nat>, n: nat) returns (b: array<nat>)
    requires a.Length <= n
    ensures fresh(b)
    ensures b[..] == a[..] + Zeros(n - a.Length)
  {
    b := new nat[n](_ => 0);
    forall k | 0 <= k < a.Length {
      b[k] := a[k];
    }
  }

  /** One round of the scan from position i, where the separator d was
      last seen: it reads the run of length l there and moves on to
      position j with e as the last separator seen.  The tokens from i are
      the run's token, if any, followed by the tokens from j. */
  lemma ScanStep(s: string, i: nat, d: char, l: nat, j: nat, e: char)
    requires i < |s| && l == Span(s[i..])
    requires i + l < |s| && s[i + l] != '\0' ==> j == i + l + 1 && e == s[i + l]
    requires i + l == |s| || s[i + l] == '\0' ==> j == i + l && e == d
    ensures j <= |s|
    ensures Tokens(s[i..], d) == Lead(d, s[i..i + l]) + Tokens(s[j..], e)
  {
    var rest := s[i..];
    assert rest[..l] == s[i..i + l];
    if i + l < |s| && s[i + l] != '\0' {
      TokensStep(rest, d, l);
      assert rest[l + 1..] == s[j..];
    } else {
      TokensLast(rest, d, l);
      assert Tokens(s[j..], e) == [];
      assert Lead(d, s[i..i + l]) + [] == Lead(d, s[i..i + l]);
    }
  }

  /** Moving the tokens of one run from the unread to the read part of a
      scan leaves their concatenation unchanged.  Stated on plain sequences
      so that the scan loop's token functions are not unfolded for it. */
  lemma MoveToken(done: seq<Token>, lead: seq<Token>, after: seq<Token>, todo: seq<Token>, all: seq<Token>)
    requires todo == lead + after && done + todo == all
    ensures (done + lead) + after == all
  {
  }

  /** Compiling one more mention is one more Advance. */
  lemma CompileSnoc(p: seq<Mention>, m: Mention, noarch: nat)
    ensures Compile(p + [m], noarch) == Advance(Compile(p, noarch), m)
  {
    assert (p + [m])[..|p|] == p;
  }

  /** The body of the scan loop for one interned token: grow the table when
      the id reaches its last slot, and give the id the running score,
      raised by the preceding separator, unless it already has one.  This
      is one Advance of the compiler's state. */
  method Admit(a: array<nat>, score: nat, m: Mention, ghost c: Compiled)
      returns (b: array<nat>, next: nat)
    requires a[..] == c.table && score == c.score && c.table != []
    modifies a
    ensures b == a || fresh(b)
    ensures Compiled(b[..], next) == Advance(c, m)
  {
    ghost var t := Cover(a[..], m.id);
    var last := a.Length - 1;
    if m.id >= last {
      b := Grow(a, m.id + Headroom + 1);
      assert b[..] == t;
    } else {
      b := a;
      assert b[..] == t;
    }
    next := score;
    if b[m.id] == 0 {
      if m.sep == ':' {
        next := score + TierStep;
      } else if m.sep == '>' {
        next := score + 1;
      }
      assert next == score + Inc(m.sep);
      b[m.id] := next;
      assert b[..] == t[m.id := next];
    }
  }

  /** The scan of pool_setarchpolicy: walk the policy string run by run,
      intern each token, and record it in a table that starts with noarch
      at 1 and grows by Headroom slots past any id that reaches its end.
      The table built is the one Policy describes. */
  method CompileTable(s: string, strn2id: string -> nat, noarch: nat) returns (a: array<nat>)
    ensures fresh(a)
    ensures a[..] == Policy(s, strn2id, noarch).table
  {
    var last := noarch + Headroom;
    a := new nat[last + 1](_ => 0);
    a[noarch] := 1;
    var score: nat := Start;
    var d := '\0';
    var i := 0;
    ghost var done: seq<Token> := [];
    ghost var all := Tokens(s, '\0');
    ghost var todo := all;
    assert a[..] == Initial(noarch).table;
    assert s[0..] == s;
    while i < |s| && s[i] != '\0'
      invariant 0 <= i <= |s|
      invariant fresh(a) && a.Length == last + 1
      invariant todo == Tokens(s[i..], d) && done + todo == all
      invariant Compile(Resolve(done, strn2id), noarch) == Compiled(a[..], score)
      decreases |s| - i
    {
      var l := Span(s[i..]);
      ghost var lead := Lead(d, s[i..i + l]);
      ghost var i0, d0 := i, d;
      if l > 0 {
        var id := strn2id(s[i..i + l]);
        assert lead == [Token(d, s[i..i + l])];
        ResolveSnoc(done, Token(d, s[i..i + l]), strn2id);
        CompileSnoc(Resolve(done, strn2id), Mention(d, id), noarch);
        a, score := Admit(a, score, Mention(d, id), Compile(Resolve(done, strn2id), noarch));
        last := a.Length - 1;
      } else {
        assert done + lead == done;
      }
      if i + l < |s| && s[i + l] != '\0' {
        d := s[i + l];
        i := i + l + 1;
      } else {
        i := i + l;
      }
      ScanStep(s, i0, d0, l, i, d);
      ghost var after := Tokens(s[i..], d);
      MoveToken(done, lead, after, todo, all);
      done, todo := done + lead, after;
    }
    assert todo == [];
    assert done + [] == done;
  }

  class Pool {
    /** The id that always scores 1 (pool->noarchid). */
    var noarchid: nat
    /** The score of every architecture id, null when no policy is set. */
    var id2arch: array?<nat>
    /** The last index of id2arch, which always holds 0; ids at or above it
        are not permitted. */
    var lastarch: nat
    /** The colour cache: None for a slot not yet classified. */
    var id2color: array?<Option<Color>>

    /** The shape every operation keeps: one spare zero slot at lastarch,
        noarch scoring 1 below it, and a cache exactly as long as the table. */
    ghost predicate Valid()
      reads this, id2arch, id2color
    {
      (id2arch == null ==> lastarch == 0) &&
      (id2arch != null ==>
         id2arch.Length == lastarch + 1 && noarchid < lastarch &&
         id2arch[noarchid] == 1 && id2arch[lastarch] == 0) &&
      (id2color != null ==> id2arch != null && id2color.Length == lastarch + 1)
    }

    /** Every colour the cache holds is the one the classification rule
        gives, for the interner id2str and the fixed ids known. */
    ghost predicate CacheSound(id2str: int -> string, known: KnownArchs)
      reads this, id2color
    {
      id2color != null ==>
        forall k :: 0 <= k < id2color.Length && id2color[k].Some? ==>
          id2color[k].value == ArchColor(k, id2str(k), known)
    }

    /** A pool with no architecture policy set. */
    constructor(noarchid: nat)
      ensures Valid() && this.noarchid == noarchid
      ensures id2arch == null && lastarch == 0 && id2color == null
    {
      this.noarchid := noarchid;
      id2arch := null;
      lastarch := 0;
      id2color := null;
    }

    /** Replace the policy by the one the string arch describes (none for a
        null arch).  The table is the one Policy compiles, the cache is
        dropped, and under SeparatorsFit every score fits 32 bits. */
    method SetArchPolicy(arch: Option<string>, strn2id: string -> nat)
      requires arch.Some? ==> SeparatorsFit(arch.value)
      modifies this
      ensures Valid() && id2color == null && noarchid == old(noarchid)
      ensures arch.None? ==> id2arch == null && lastarch == 0
      ensures arch.Some? ==> id2arch != null && fresh(id2arch)
      ensures arch.Some? ==> id2arch[..] == Policy(arch.value, strn2id, noarchid).table
      ensures arch.Some? ==> forall k :: 0 <= k < id2arch.Length ==> id2arch[k] < 0x1_0000_0000
    {
      id2color := null;
      if arch.None? {
        id2arch := null;
        lastarch := 0;
        return;
      }
      var s := arch.value;
      var a := CompileTable(s, strn2id, noarchid);
      PolicyFits(s, strn2id, noarchid);
      id2arch := a;
      lastarch := a.Length - 1;
    }
    /** Set the policy for an architecture name: a name of the built-in
        table stands for its policy string, any other name is itself the
        policy.  The name is a C string, so only its characters before the
        first NUL are compared. */
    method SetArch(arch: Option<string>, strn2id: string -> nat)
      requires arch.Some? ==> SeparatorsFit(Expand(CString(arch.value), ArchPolicies))
      modifies this
      ensures Valid() && id2color == null && noarchid == old(noarchid)
      ensures arch.None? ==> id2arch == null && lastarch == 0
      ensures arch.Some? ==> id2arch != null && fresh(id2arch)
      ensures arch.Some? ==>
                id2arch[..] == Policy(Expand(CString(arch.value), ArchPolicies), strn2id, noarchid).table
    {
      if arch.None? {
        SetArchPolicy(None, strn2id);
      } else {
        var policy := LookupArchPolicy(CString(arch.value), ArchPolicies);
        SetArchPolicy(Some(policy), strn2id);
      }
    }

    /** Classify arch and remember the answer.  An id outside the table
        (negative, or at or beyond lastarch, as the unsigned comparison
        sees it) is architecture-independent and not cached; otherwise the
        cache is allocated on first use and the slot of arch is filled. */
    method Arch2ColorSlow(arch: int, id2str: int -> string, known: KnownArchs) returns (color: Color)
      requires Valid()
      modifies this, id2color
      ensures Valid()
      ensures id2arch == old(id2arch) && lastarch == old(lastarch) && noarchid == old(noarchid)
      ensures old(CacheSound(id2str, known)) ==> CacheSound(id2str, known)
      ensures arch < 0 || arch >= lastarch ==> color == All && id2color == old(id2color)
      ensures (arch < 0 || arch >= lastarch) && old(id2color) != null ==>
                id2color[..] == old(id2color[..])
      ensures 0 <= arch < lastarch ==> color == ArchColor(arch, id2str(arch), known)
      ensures 0 <= arch < lastarch && old(id2color) != null ==>
                id2color == old(id2color) && id2color[..] == old(id2color[..])[arch := Some(color)]
      ensures 0 <= arch < lastarch && old(id2color) == null ==>
                id2color != null && fresh(id2color) &&
                id2color[..] == Unfilled(lastarch + 1)[arch := Some(color)]
    {
      if arch < 0 || arch >= lastarch {
        return All;
      }
      if id2color == null {
        id2color := new Option<Color>[lastarch + 1](_ => None);
        assert id2color[..] == Unfilled(lastarch + 1);
      }
      var s := id2str(arch);
      if arch == known.noarch || arch == known.all || arch == known.any {
        color := All;
      } else if s == "s390x" || Contains(s, "64") {
        color := Bits64;
      } else {
        color := Bits32;
      }
      id2color[arch] := Some(color);
    }
  }
}
