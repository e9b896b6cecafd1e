/**
 Alias expansion: a short architecture name such as "x86_64" stands for a
 whole policy string.  The table is scanned linearly and the first entry
 whose name equals the given one exactly wins; any other name is used as a
 policy of its own.
 */
module ArchAliases {

  /** The archpolicies table of the default build (neither FEDORA nor
      MAGEIA defined): pairs of a name and the policy it stands for. */
  const ArchPolicies: seq<(string, string)> := [
    ("x86_64", "x86_64:i686:i586:i486:i386"),
    ("i686", "i686:i586:i486:i386"),
    ("i586", "i586:i486:i386"),
    ("i486", "i486:i386"),
    ("s390x", "s390x:s390"),
    ("ppc64", "ppc64:ppc"),
    ("ppc64p7", "ppc64p7:ppc64:ppc"),
    ("ia64", "ia64:i686:i586:i486:i386"),
    ("armv8hcnl", "armv8hcnl:armv8hnl:armv8hl:armv7hnl:armv7hl:armv6hl"),
    ("armv8hnl", "armv8hnl:armv8hl:armv7hnl:armv7hl:armv6hl"),
    ("armv8hl", "armv8hl:armv7hl:armv6hl"),
    ("armv8l", "armv8l:armv7l:armv6l:armv5tejl:armv5tel:armv5tl:armv5l:armv4tl:armv4l:armv3l"),
    ("armv7hnl", "armv7hnl:armv7hl:armv6hl"),
    ("armv7hl", "armv7hl:armv6hl"),
    ("armv7l", "armv7l:armv6l:armv5tejl:armv5tel:armv5tl:armv5l:armv4tl:armv4l:armv3l"),
    ("armv6l", "armv6l:armv5tejl:armv5tel:armv5tl:armv5l:armv4tl:armv4l:armv3l"),
    ("armv5tejl", "armv5tejl:armv5tel:armv5tl:armv5l:armv4tl:armv4l:armv3l"),
    ("armv5tel", "armv5tel:armv5tl:armv5l:armv4tl:armv4l:armv3l"),
    ("armv5tl", "armv5tl:armv5l:armv4tl:armv4l:armv3l"),
    ("armv5l", "armv5l:armv4tl:armv4l:armv3l"),
    ("armv4tl", "armv4tl:armv4l:armv3l"),
    ("armv4l", "armv4l:armv3l"),
    ("sh4a", "sh4a:sh4"),
    ("sparc64v", "sparc64v:sparc64:sparcv9v:sparcv9:sparcv8:sparc"),
    ("sparc64", "sparc64:sparcv9:sparcv8:sparc"),
    ("sparcv9v", "sparcv9v:sparcv9:sparcv8:sparc"),
    ("sparcv9", "sparcv9:sparcv8:sparc"),
    ("sparcv8", "sparcv8:sparc"),
    ("loongarch64", "loongarch64")
  ]

  /** Entry k is the first whose name equals arch. */
  predicate IsFirstMatch(policies: seq<(string, string)>, arch: string, k: int) {
    0 <= k < |policies| && policies[k].0 == arch &&
    forall j :: 0 <= j < k ==> policies[j].0 != arch
  }

  /** The policy string arch stands for: the expansion of the first entry
      named exactly arch, or arch itself when no entry is. */
  function Expand(arch: string, policies: seq<(string, string)>): (r: string)
    ensures (forall k :: 0 <= k < |policies| ==> policies[k].0 != arch) ==> r == arch
    ensures forall k :: IsFirstMatch(policies, arch, k) ==> r == policies[k].1
    decreases |policies|
  {
    if policies == [] then arch
    else if policies[0].0 == arch then policies[0].1
    else
      assert forall k :: IsFirstMatch(policies, arch, k) ==> IsFirstMatch(policies[1..], arch, k - 1);
      Expand(arch, policies[1..])
  }

  /** The lookup loop of pool_setarch: scan the pairs in order and stop at
      the first whose name equals arch. */
  method LookupArchPolicy(arch: string, policies: seq<(string, string)>) returns (r: string)
    ensures r == Expand(arch, policies)
  {
    var i := 0;
    while i < |policies|
      invariant 0 <= i <= |policies|
      invariant forall j :: 0 <= j < i ==> policies[j].0 != arch
    {
      if policies[i].0 == arch {
        assert IsFirstMatch(policies, arch, i);
        return policies[i].1;
      }
      i := i + 1;
    }
    return arch;
  }

  /** "x86_64" expands to its whole 64-bit and 32-bit x86 policy. */
  lemma ExpandX86()
    ensures Expand("x86_64", ArchPolicies) == "x86_64:i686:i586:i486:i386"
  {
    assert IsFirstMatch(ArchPolicies, "x86_64", 0);
  }

  /** "i586" expands to the third entry's policy. */
  lemma ExpandI586()
    ensures Expand("i586", ArchPolicies) == "i586:i486:i386"
  {
    assert IsFirstMatch(ArchPolicies, "i586", 2);
  }
}
