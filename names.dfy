/** String-level helpers of the command-line tool: the class-name
    normalisation of the tiny reader, Java's `String.replace(char, char)`,
    the sanitised source tag and the conspicuous placeholder names. */
module Names {

  /** Java's `s.startsWith(p)`. */
  predicate StartsWith(s: string, p: string)
  {
    |p| <= |s| && s[..|p|] == p
  }

  /** Java's `s.replace(a, b)` for characters: every occurrence of `a`
      becomes `b`, every other character stays where it is. */
  function ReplaceChar(s: string, a: char, b: char): (r: string)
    ensures |r| == |s|
    ensures forall i :: 0 <= i < |s| ==> r[i] == (if s[i] == a then b else s[i])
    ensures a != b ==> a !in r
  {
    if s == [] then []
    else [if s[0] == a then b else s[0]] + ReplaceChar(s[1..], a, b)
  }

  /** `procClassName`: with the "append none" policy a package-less class
      name is put into the synthetic package `none/`; otherwise the name is
      kept as it is. */
  function ProcClassName(s: string, appendNone: bool): (r: string)
    ensures !appendNone ==> r == s
    ensures appendNone ==> '/' in r
    ensures r == "none/" + s <==> appendNone && '/' !in s
    ensures r == s <==> !appendNone || '/' in s
  {
    if appendNone then
      if '/' !in s then
        assert ("none/" + s)[4] == '/';
        "none/" + s
      else s
    else s
  }

  /** Normalising twice is normalising once. */
  lemma ProcClassNameIdempotent(s: string, appendNone: bool)
    ensures ProcClassName(ProcClassName(s, appendNone), appendNone) == ProcClassName(s, appendNone)
  {
  }

  /** The tag embedded in placeholder names, derived from the user's seed by
      replacing `.`, then `-`, then `/` with `_`. */
  function SourceTag(seed: string): (tag: string)
    ensures |tag| == |seed|
    ensures '.' !in tag && '-' !in tag && '/' !in tag
    ensures forall i :: 0 <= i < |seed| ==>
      tag[i] == (if seed[i] in {'.', '-', '/'} then '_' else seed[i])
  {
    ReplaceChar(ReplaceChar(ReplaceChar(seed, '.', '_'), '-', '_'), '/', '_')
  }

  /** The placeholder given to a member (or class) missing from the table. */
  function Placeholder(tag: string, name: string): string
  {
    "XX_" + tag + "_" + name + "_XX"
  }

  /** The deobfuscated name synthesised for a reference class absent from
      the table: its package separators become `_`, and under the "append
      none" policy the result is put into the package `none/`. */
  function SyntheticClassName(tag: string, name: string, appendNone: bool): string
  {
    (if appendNone then "none/" else "") + Placeholder(tag, ReplaceChar(name, '/', '_'))
  }

  /** With a sanitised tag, the synthesised class name is packaged exactly
      under the "append none" policy, and it is then already normalised. */
  lemma SyntheticClassNameNormalised(seed: string, name: string, appendNone: bool)
    ensures var r := SyntheticClassName(SourceTag(seed), name, appendNone);
      ('/' in r <==> appendNone) && ProcClassName(r, appendNone) == r
  {
    var p := Placeholder(SourceTag(seed), ReplaceChar(name, '/', '_'));
    assert '/' !in p;
    if appendNone {
      assert ("none/" + p)[4] == '/';
    }
  }
}
