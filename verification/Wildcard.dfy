/** Wildcard patterns: SQL LIKE and the part of Redis globbing without character classes. */
module Wildcard {

  datatype Dialect = Dialect(many: char, one: char, escape: char)

  const LIKE := Dialect('%', '_', '\\')
  const GLOB := Dialect('*', '?', '\\')

  predicate Matches(d: Dialect, pattern: string, text: string)
    decreases |pattern| + |text|
  {
    if pattern == "" then text == ""
    else if pattern[0] == d.many then
      Matches(d, pattern[1..], text) || (text != "" && Matches(d, pattern, text[1..]))
    else if pattern[0] == d.escape && |pattern| > 1 then
      text != "" && text[0] == pattern[1] && Matches(d, pattern[2..], text[1..])
    else
      text != "" && (pattern[0] == d.one || pattern[0] == text[0]) && Matches(d, pattern[1..], text[1..])
  }

  /** A string without special characters. */
  predicate Plain(d: Dialect, s: string) {
    forall i :: 0 <= i < |s| ==> s[i] != d.many && s[i] != d.one && s[i] != d.escape
  }

  predicate OccursAt(part: string, text: string, i: nat) {
    i + |part| <= |text| && text[i..i + |part|] == part
  }

  predicate Occurs(part: string, text: string) {
    exists i: nat :: i <= |text| && OccursAt(part, text, i)
  }

  /** The parts of a pattern, one after the other: anything at all, any one character, the character after
      an escape, and any other character itself. */
  lemma PatternByParts(d: Dialect, c: char, rest: string, text: string)
    requires d.many != d.one && d.many != d.escape && d.one != d.escape
    ensures Matches(d, [d.many] + rest, text) <==> exists k: nat :: k <= |text| && Matches(d, rest, text[k..])
    ensures Matches(d, [d.one] + rest, text) <==> text != "" && Matches(d, rest, text[1..])
    ensures Matches(d, [d.escape, c] + rest, text) <==> text != "" && text[0] == c && Matches(d, rest, text[1..])
    ensures Plain(d, [c]) ==>
        (Matches(d, [c] + rest, text) <==> text != "" && text[0] == c && Matches(d, rest, text[1..]))
    ensures Matches(d, "", text) <==> text == ""
  {
    assert ([d.one] + rest)[1..] == rest && ([d.escape, c] + rest)[2..] == rest && ([c] + rest)[1..] == rest;
    assert Plain(d, [c]) ==> [c][0] != d.many && [c][0] != d.one && [c][0] != d.escape;
    ManyMatches(d, rest, text);
  }

  lemma {:induction false} ManyMatches(d: Dialect, rest: string, text: string)
    ensures Matches(d, [d.many] + rest, text) <==> exists k: nat :: k <= |text| && Matches(d, rest, text[k..])
  {
    assert ([d.many] + rest)[1..] == rest && text[0..] == text;
    if text != "" {
      ManyMatches(d, rest, text[1..]);
      assert forall k: nat :: k < |text| ==> text[1..][k..] == text[k + 1..];
      if k: nat :| k <= |text[1..]| && Matches(d, rest, text[1..][k..]) {
        assert Matches(d, rest, text[k + 1..]);
      }
      if k: nat :| k <= |text| && Matches(d, rest, text[k..]) {
        assert k > 0 ==> text[1..][k - 1..] == text[k..];
      }
    }
  }

  lemma {:induction false} ManyMatchesAll(d: Dialect, text: string)
    ensures Matches(d, [d.many], text)
  {
    if text != "" {
      ManyMatchesAll(d, text[1..]);
    }
  }

  /** "part*" matches exactly the extensions of `part`. */
  lemma {:induction false} PrefixPattern(d: Dialect, part: string, text: string)
    requires Plain(d, part)
    ensures Matches(d, part + [d.many], text) <==> part <= text
  {
    if part == "" {
      assert part + [d.many] == [d.many];
      ManyMatchesAll(d, text);
    } else {
      assert (part + [d.many])[1..] == part[1..] + [d.many];
      if text != "" && text[0] == part[0] {
        PrefixPattern(d, part[1..], text[1..]);
        assert text == [text[0]] + text[1..] && part == [part[0]] + part[1..];
      }
    }
  }

  /** "%part%" matches exactly the texts in which `part` occurs. */
  lemma {:induction false} InfixPattern(d: Dialect, part: string, text: string)
    requires Plain(d, part)
    ensures Matches(d, [d.many] + part + [d.many], text) <==> Occurs(part, text)
  {
    var pattern := [d.many] + part + [d.many];
    assert pattern[1..] == part + [d.many];
    PrefixPattern(d, part, text);
    if part <= text {
      assert OccursAt(part, text, 0);
    }
    if text != "" {
      InfixPattern(d, part, text[1..]);
      if Occurs(part, text[1..]) {
        var i: nat :| i <= |text[1..]| && OccursAt(part, text[1..], i);
        assert OccursAt(part, text, i + 1);
      }
      if Occurs(part, text) && !(part <= text) {
        var i: nat :| i <= |text| && OccursAt(part, text, i);
        assert i > 0;
        assert text[1..][i - 1..i - 1 + |part|] == text[i..i + |part|];
        assert OccursAt(part, text[1..], i - 1);
      }
    } else if Occurs(part, text) {
      assert part == "";
    }
  }
}
