/**
 * What the two setup scripts share: the (name, version) dependency pairs, the
 * requirement pip is given for one, how a script stops early, and the
 * "<name><suffix>" lines they write one per entry.
 */
module Scripts {
  import opened Text

  /** `(name, version)`; the version "-1" asks for the latest release. */
  datatype Dependency = Dependency(name: string, version: string)

  const Latest := "-1"

  /**
   * The requirement pip is asked to install, which is also how the final listing
   * of `setup.py` shows a dependency: the name alone for the latest release,
   * otherwise the name with the version suffix run on.
   */
  function Requirement(d: Dependency): (r: string)
    ensures d.name <= r
    ensures d.version == Latest ==> r == d.name
    ensures d.version != Latest ==> r[|d.name|..] == d.version
  {
    if d.version == Latest then d.name else d.name + d.version
  }

  /** How a script stops early: `sys.exit(code)` after writing `message` to stderr, or an escaping exception. */
  datatype Failure = Exit(code: nat, message: string) | Raised(exception: string)

  /** One line per name: the name followed by `suffix` (such as "...OK\n"). */
  function Suffixed(names: seq<string>, suffix: string): string
  {
    Concat(seq(|names|, i requires 0 <= i < |names| => names[i] + suffix))
  }

  /** A loop writing one such line per name has, after `i` names, written the lines of the first `i`. */
  lemma SuffixedSnoc(names: seq<string>, suffix: string, i: nat)
    requires i < |names|
    ensures Suffixed(names[..i + 1], suffix) == Suffixed(names[..i], suffix) + (names[i] + suffix)
  {
    var front := seq(i, k requires 0 <= k < i => names[k] + suffix);
    assert seq(i + 1, k requires 0 <= k < i + 1 => names[..i + 1][k] + suffix) == front + [names[i] + suffix];
    assert seq(i, k requires 0 <= k < i => names[..i][k] + suffix) == front;
    ConcatAppend(front, [names[i] + suffix]);
    assert Concat([names[i] + suffix]) == names[i] + suffix;
  }
}
