/**
 * The parts of Go's `strings` and `fmt` packages that the configuration store
 * relies on: the first occurrence of a separator (`strings.Index`), the first
 * two tokens of `strings.Split`, and `fmt.Sprintf` with a single `%s` verb.
 */
module Strings {

  /** Index of the first occurrence of `sep` in `s`, or `|s|` when there is none. */
  function Find(s: string, sep: string): (i: nat)
    requires sep != []
    ensures i <= |s|
    ensures i < |s| ==> sep <= s[i..]
    ensures forall j | 0 <= j < i :: !(sep <= s[j..])
    decreases |s|
  {
    if s == [] then 0
    else if sep <= s then 0
    else
      var i := 1 + Find(s[1..], sep);
      assert forall j | 1 <= j <= |s| :: s[j..] == s[1..][j - 1..];
      i
  }

  /** `strings.Contains(s, sep)`; also `len(strings.Split(s, sep)) > 1`. */
  predicate Contains(s: string, sep: string)
    requires sep != []
  {
    Find(s, sep) < |s|
  }

  /** `strings.Split(s, sep)[0]`: everything before the first separator. */
  function Before(s: string, sep: string): string
    requires sep != []
  {
    s[..Find(s, sep)]
  }

  /** Everything after the first separator; `strings.Split(s, sep)[1]` is `Before(After(s, sep), sep)`. */
  function After(s: string, sep: string): string
    requires sep != [] && Contains(s, sep)
  {
    s[Find(s, sep) + |sep|..]
  }

  /**
   * `fmt.Sprintf(template, arg)`: the first `%s` is replaced by `arg`; a template
   * without a verb gets Go's `%!(EXTRA string=...)` suffix.
   */
  function Format(template: string, arg: string): string
  {
    var i := Find(template, "%s");
    if i < |template| then template[..i] + arg + template[i + 2..]
    else template + "%!(EXTRA string=" + arg + ")"
  }

  /** A prefix that cannot start the separator shifts the first occurrence by its length. */
  lemma {:induction false} FindAfterPrefix(p: string, t: string, sep: string)
    requires sep != [] && sep[0] !in p
    ensures Find(p + t, sep) == |p| + Find(t, sep)
    decreases |p|
  {
    if p == [] {
      assert p + t == t;
    } else {
      assert (p + t)[0] == p[0] != sep[0];
      assert !(sep <= p + t);
      assert (p + t)[1..] == p[1..] + t;
      assert Find(p + t, sep) == 1 + Find(p[1..] + t, sep);
      FindAfterPrefix(p[1..], t, sep);
    }
  }

  /** Splitting `p + sep + rest` at the first `sep` gives back `p` and `rest`. */
  lemma SplitAt(p: string, sep: string, rest: string)
    requires sep != [] && sep[0] !in p
    ensures Contains(p + sep + rest, sep)
    ensures Before(p + sep + rest, sep) == p
    ensures After(p + sep + rest, sep) == rest
  {
    assert p + sep + rest == p + (sep + rest);
    FindAfterPrefix(p, sep + rest, sep);
    assert sep <= sep + rest;
    assert Find(sep + rest, sep) == 0;
  }

  /** A one-character separator occurs exactly when the character does. */
  lemma ContainsChar(s: string, c: char)
    ensures Contains(s, [c]) <==> c in s
    ensures Contains(s, [c]) ==> s[Find(s, [c])] == c
    ensures !Contains(s, [c]) ==> Before(s, [c]) == s
  {
    if c in s {
      var j :| 0 <= j < |s| && s[j] == c;
      assert [c] <= s[j..];
    }
    if Contains(s, [c]) {
      var i := Find(s, [c]);
      assert [c] <= s[i..];
      assert s[i..][0] == c;
    }
  }
}
