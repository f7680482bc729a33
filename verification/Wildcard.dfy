/** pkg/wildcard Match: '*' stands for any string, '?' for any one rune, every other rune for itself. */
module Wildcard {

  predicate Fits(piece: string, rune: char) {
    if rune == '*' then true else if rune == '?' then |piece| == 1 else piece == [rune]
  }

  function Join(pieces: seq<string>): string {
    if pieces == [] then "" else pieces[0] + Join(pieces[1..])
  }

  /** The name splits into one piece for each rune of the pattern. */
  ghost predicate Matches(pattern: string, name: string) {
    exists pieces: seq<string> :: SplitsAs(pattern, name, pieces)
  }

  predicate SplitsAs(pattern: string, name: string, pieces: seq<string>) {
    |pieces| == |pattern| && Join(pieces) == name && forall i :: 0 <= i < |pattern| ==> Fits(pieces[i], pattern[i])
  }

  /** The first piece, for a pattern that is not empty. */
  lemma MatchesStep(pattern: string, name: string)
    requires pattern != ""
    ensures Matches(pattern, name) <==>
              exists k :: 0 <= k <= |name| && Fits(name[..k], pattern[0]) && Matches(pattern[1..], name[k..])
  {
    forall pieces | SplitsAs(pattern, name, pieces)
      ensures exists k :: 0 <= k <= |name| && Fits(name[..k], pattern[0]) && Matches(pattern[1..], name[k..])
    {
      var k := |pieces[0]|;
      assert name[..k] == pieces[0] && name[k..] == Join(pieces[1..]);
      assert SplitsAs(pattern[1..], name[k..], pieces[1..]);
    }
    forall k | 0 <= k <= |name| && Fits(name[..k], pattern[0]) && Matches(pattern[1..], name[k..])
      ensures Matches(pattern, name)
    {
      var rest :| SplitsAs(pattern[1..], name[k..], rest);
      var pieces := [name[..k]] + rest;
      assert pieces[1..] == rest && name == name[..k] + name[k..];
      assert SplitsAs(pattern, name, pieces);
    }
  }

  lemma EmptyPattern(name: string)
    ensures Matches("", name) <==> name == ""
  {
    assert name == "" ==> SplitsAs("", name, []);
  }

  /** A rune that is not '*' takes exactly one rune of the name. */
  lemma OneRune(pattern: string, name: string)
    requires pattern != "" && pattern[0] != '*'
    ensures Matches(pattern, name) <==>
              name != "" && (pattern[0] == '?' || pattern[0] == name[0]) && Matches(pattern[1..], name[1..])
  {
    hide Matches;
    MatchesStep(pattern, name);
    if name != "" {
      assert name[..1] == [name[0]];
    }
  }

  /** '*' takes nothing, or one rune and goes on. */
  lemma AnyString(pattern: string, name: string)
    requires pattern != "" && pattern[0] == '*'
    ensures Matches(pattern, name) <==> Matches(pattern[1..], name) || (name != "" && Matches(pattern, name[1..]))
  {
    hide Matches;
    MatchesStep(pattern, name);
    assert name[0..] == name;
    if name != "" {
      MatchesStep(pattern, name[1..]);
      forall k | 1 <= k <= |name|
        ensures name[1..][k - 1..] == name[k..]
      {
      }
      forall k | 0 <= k <= |name[1..]| && Matches(pattern[1..], name[1..][k..])
        ensures Matches(pattern[1..], name[k + 1..])
      {
        assert name[1..][k..] == name[k + 1..];
      }
    }
  }

  method DeepMatchRune(name: string, runes: string) returns (matched: bool)
    ensures matched <==> Matches(runes, name)
    decreases |name| + |runes|
  {
    hide Matches;
    var str, pattern := name, runes;
    while |pattern| > 0
      invariant Matches(pattern, str) <==> Matches(runes, name)
      invariant |str| + |pattern| <= |name| + |runes|
      decreases |pattern|
    {
      if pattern[0] == '*' {
        AnyString(pattern, str);
        matched := DeepMatchRune(str, pattern[1..]);
        if !matched && |str| > 0 {
          matched := DeepMatchRune(str[1..], pattern);
        }
        return;
      }
      OneRune(pattern, str);
      if pattern[0] == '?' {
        if |str| == 0 {
          return false;
        }
      } else {
        if |str| == 0 || str[0] != pattern[0] {
          return false;
        }
      }
      str, pattern := str[1..], pattern[1..];
    }
    EmptyPattern(str);
    matched := |str| == 0 && |pattern| == 0;
  }

  method Match(pattern: string, name: string) returns (matched: bool)
    ensures matched <==> Matches(pattern, name)
  {
    if pattern == "" {
      EmptyPattern(name);
      return name == pattern;
    }
    if pattern == "*" {
      assert Join([name]) == name + "";
      assert SplitsAs(pattern, name, [name]);
      return true;
    }
    matched := DeepMatchRune(name, pattern);
  }
}
