/**
 The word-size ("colour") rule of the lazy classifier: an architecture is
 architecture-independent, 32-bit or 64-bit, judged from its id and its name.
 */
module ArchColors {

  /** ARCHCOLOR_ALL, ARCHCOLOR_32 and ARCHCOLOR_64.  Their numeric values are
      defined outside this model; only their distinctness matters here. */
  datatype Color = All | Bits32 | Bits64

  /** The interner's fixed ids ARCH_NOARCH, ARCH_ALL and ARCH_ANY. */
  datatype KnownArchs = KnownArchs(noarch: int, all: int, any: int)

  /** p occurs somewhere in s at position i. */
  predicate OccursAt(s: string, p: string, i: int) {
    0 <= i <= |s| - |p| && s[i..i + |p|] == p
  }

  /** strstr(s, p) != NULL: p occurs in s. */
  function Contains(s: string, p: string): (r: bool)
    ensures r <==> exists i :: OccursAt(s, p, i)
    decreases |s|
  {
    if |s| < |p| then false
    else if s[..|p|] == p then
      assert OccursAt(s, p, 0);
      true
    else
      ShiftOccurrence(s, p);
      Contains(s[1..], p)
  }

  /** When p is not a prefix of s, its occurrences in s are those in s[1..],
      one position further on. */
  lemma ShiftOccurrence(s: string, p: string)
    requires |s| >= |p| && s[..|p|] != p
    ensures (exists i :: OccursAt(s, p, i)) <==> (exists i :: OccursAt(s[1..], p, i))
  {
    if i :| OccursAt(s, p, i) {
      assert i != 0;
      assert s[1..][i - 1..i - 1 + |p|] == s[i..i + |p|];
      assert OccursAt(s[1..], p, i - 1);
    }
    if i :| OccursAt(s[1..], p, i) {
      assert s[1..][i..i + |p|] == s[i + 1..i + 1 + |p|];
      assert OccursAt(s, p, i + 1);
    }
  }

  /** The colour of architecture arch, whose name is name: the three fixed
      ids are architecture-independent; "s390x" and every name containing
      "64" are 64-bit; every other name is 32-bit. */
  function ArchColor(arch: int, name: string, known: KnownArchs): (r: Color)
    ensures r == All <==> arch == known.noarch || arch == known.all || arch == known.any
    ensures r == Bits64 <==> r != All && (name == "s390x" || exists i :: OccursAt(name, "64", i))
  {
    if arch == known.noarch || arch == known.all || arch == known.any then All
    else if name == "s390x" || Contains(name, "64") then Bits64
    else Bits32
  }

  /** The rule applied to some names of the default configuration. */
  lemma ColorExamples(arch: int, known: KnownArchs)
    requires arch != known.noarch && arch != known.all && arch != known.any
    ensures ArchColor(arch, "s390x", known) == Bits64
    ensures ArchColor(arch, "x86_64", known) == Bits64
    ensures ArchColor(arch, "ppc64p7", known) == Bits64
    ensures ArchColor(arch, "i686", known) == Bits32
    ensures ArchColor(arch, "s390", known) == Bits32
    ensures ArchColor(arch, "armv7hl", known) == Bits32
    ensures ArchColor(known.noarch, "x86_64", known) == All
  {
    assert OccursAt("x86_64", "64", 4);
    assert OccursAt("ppc64p7", "64", 3);
    NoSixtyFour("i686");
    NoSixtyFour("s390");
    NoSixtyFour("armv7hl");
  }

  /** A name in which no '6' is directly followed by a '4' does not contain
      "64". */
  lemma NoSixtyFour(s: string)
    requires forall i :: 0 <= i < |s| - 1 ==> !(s[i] == '6' && s[i + 1] == '4')
    ensures !Contains(s, "64")
  {
    if i :| OccursAt(s, "64", i) {
      assert s[i..i + 2][0] == s[i] && s[i..i + 2][1] == s[i + 1];
    }
  }

  /** The source's guard (unsigned int)arch >= (unsigned int)lastarch,
      reinterpreting a 32-bit Id as unsigned. */
  function AsUnsigned(x: int): nat {
    x % 0x1_0000_0000
  }

  /** For a 32-bit Id arch and a lastarch in the Id range that is not
      negative, the unsigned comparison is out of range exactly when arch is
      negative or at least lastarch. */
  lemma UnsignedGuard(arch: int, lastarch: int)
    requires -0x8000_0000 <= arch < 0x8000_0000 && 0 <= lastarch < 0x8000_0000
    ensures AsUnsigned(arch) >= AsUnsigned(lastarch) <==> arch < 0 || arch >= lastarch
  {
    if arch < 0 {
      assert AsUnsigned(arch) == arch + 0x1_0000_0000;
    }
    assert AsUnsigned(lastarch) == lastarch;
  }
}
