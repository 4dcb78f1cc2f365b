/**
 * A small stand-in for the glob matcher the proxy compiles every allowlist
 * entry into (a glob whose separator is '.').  The stand-in supports the
 * constructs hostname allowlists use:
 *   - an ordinary character matches itself;
 *   - `?` matches one character other than the separator;
 *   - `*` matches any run of characters that contains no separator;
 *   - `**` matches any run of characters at all.
 * Character classes (`[...]`), alternatives (`{a,b}`) and escapes (`\`) are
 * not part of this model: the stand-in reads their characters as ordinary
 * ones, so only its lemmas about texts without those characters (IsLiteral)
 * speak for the full glob syntax.  Matching is case-sensitive.
 */
module Glob {

  /** The separator a `*` or `?` never matches. */
  const Separator := '.'

  datatype Token =
    | Lit(c: char)   // an ordinary character
    | Single         // `?`
    | Star           // `*`
    | SuperStar      // `**`

  /** A compiled glob: the tokens of the pattern, in order. */
  type Pattern = seq<Token>

  /**
   * True when `s` has no character the glob syntax gives a meaning: neither
   * the wildcards `*` and `?` nor the class, alternative and escape
   * characters `[`, `]`, `{`, `}`, `\`.  Such a text is compiled to literals
   * only, and it means the same to the stand-in as to the full glob syntax.
   */
  predicate IsLiteral(s: string) {
    forall i :: 0 <= i < |s| ==> s[i] !in "*?[]{}\\"
  }

  /** The pattern text a token stands for. */
  function TokenText(t: Token): string {
    match t
    case Lit(c) => [c]
    case Single => "?"
    case Star => "*"
    case SuperStar => "**"
  }

  /** The text of a whole compiled pattern. */
  function PatternText(p: Pattern): string {
    if p == [] then [] else TokenText(p[0]) + PatternText(p[1..])
  }

  /**
   * Compiles the text of a pattern, reading `**` before `*`.  Every text
   * compiles; compiling loses nothing of the text, and a text without
   * special characters compiles to one literal token per character.  `*`
   * and `?` are always read as wildcards, never as literal characters.
   */
  function Compile(s: string): (p: Pattern)
    ensures PatternText(p) == s
    ensures Lit('*') !in p && Lit('?') !in p
    ensures IsLiteral(s) ==> p == seq(|s|, i requires 0 <= i < |s| => Lit(s[i]))
  {
    if s == [] then []
    else if s[0] == '*' && |s| >= 2 && s[1] == '*' then [SuperStar] + Compile(s[2..])
    else if s[0] == '*' then [Star] + Compile(s[1..])
    else if s[0] == '?' then [Single] + Compile(s[1..])
    else [Lit(s[0])] + Compile(s[1..])
  }

  /**
   * Does the whole of `name` match the pattern `p`?  A name with a
   * separator can only match a pattern that has `**` or a literal separator:
   * `?` and `*` never match one.
   */
  function Matches(p: Pattern, name: string): (r: bool)
    ensures r && Separator in name ==> SuperStar in p || Lit(Separator) in p
    decreases |p| + |name|
  {
    if p == [] then name == []
    else match p[0]
      case Lit(c) => name != [] && name[0] == c && Matches(p[1..], name[1..])
      case Single => name != [] && name[0] != Separator && Matches(p[1..], name[1..])
      case Star =>
        Matches(p[1..], name) || (name != [] && name[0] != Separator && Matches(p, name[1..]))
      case SuperStar =>
        Matches(p[1..], name) || (name != [] && Matches(p, name[1..]))
  }

  /** A pattern without special characters matches exactly its own text. */
  lemma {:induction false} LiteralMatchesExactly(s: string, name: string)
    requires IsLiteral(s)
    ensures Matches(Compile(s), name) <==> name == s
  {
    if s != [] {
      assert Compile(s) == [Lit(s[0])] + Compile(s[1..]);
      assert IsLiteral(s[1..]) by {
        forall i | 0 <= i < |s[1..]| ensures s[1..][i] !in "*?[]{}\\" {
          assert s[1..][i] == s[i + 1];
        }
      }
      if name != [] {
        LiteralMatchesExactly(s[1..], name[1..]);
        assert name == s <==> name[0] == s[0] && name[1..] == s[1..] by {
          if name[0] == s[0] && name[1..] == s[1..] {
            assert name == [name[0]] + name[1..];
            assert s == [s[0]] + s[1..];
          }
        }
      }
    }
  }

  /** A lone `*` matches exactly the names without a separator. */
  lemma {:induction false} StarMatchesOneLabel(name: string)
    ensures Matches([Star], name) <==> Separator !in name
  {
    assert [Star][1..] == [];
    if name != [] {
      StarMatchesOneLabel(name[1..]);
      assert name == [name[0]] + name[1..];
    }
  }

  /** A lone `?` matches exactly the one-character names other than the separator. */
  lemma QuestionMatchesOneChar(name: string)
    ensures Matches([Single], name) <==> |name| == 1 && name[0] != Separator
  {
    assert [Single][1..] == [];
  }

  /** A lone `**` matches every name. */
  lemma {:induction false} SuperStarMatchesAll(name: string)
    ensures Matches([SuperStar], name)
  {
    assert [SuperStar][1..] == [];
    if name != [] {
      SuperStarMatchesAll(name[1..]);
    }
  }

  /**
   * `*` followed by literal text `s` matches exactly the names made of a
   * run without separators followed by `s`.  With `s` = ".example.com" this
   * is the usual "any one-label subdomain" entry.
   */
  lemma {:induction false} StarThenLiteral(s: string, name: string)
    requires IsLiteral(s)
    ensures Matches([Star] + Compile(s), name) <==>
            exists k :: 0 <= k <= |name| && Separator !in name[..k] && name[k..] == s
  {
    var p := [Star] + Compile(s);
    assert p[1..] == Compile(s);
    LiteralMatchesExactly(s, name);
    if Matches(p, name) {
      if Matches(Compile(s), name) {
        assert name[..0] == [] && name[0..] == name;
      } else {
        StarThenLiteral(s, name[1..]);
        var k :| 0 <= k <= |name[1..]| && Separator !in name[1..][..k] && name[1..][k..] == s;
        assert name[..k + 1] == [name[0]] + name[1..][..k];
        assert name[k + 1..] == name[1..][k..];
      }
    }
    if exists k :: 0 <= k <= |name| && Separator !in name[..k] && name[k..] == s {
      var k :| 0 <= k <= |name| && Separator !in name[..k] && name[k..] == s;
      if k == 0 {
        assert name == s;
      } else {
        assert name[0] == name[..k][0];
        StarThenLiteral(s, name[1..]);
        assert Separator !in name[1..][..k - 1] by {
          forall i | 0 <= i < k - 1 ensures name[1..][i] != Separator {
            assert name[1..][i] == name[..k][i + 1];
          }
        }
        assert name[1..][k - 1..] == name[k..];
      }
    }
  }
}
