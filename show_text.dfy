/** `show`: print a response body with its markup tags removed. The loop keeps
    one flag, `in_angle`, set by `<` and cleared by `>`; a character that is
    neither is printed only while the flag is clear. The model returns the
    printed text instead of writing it to standard output. */
module ShowText {

  /** What the loop prints for `s` when it starts with the flag `inAngle`. */
  function Strip(s: string, inAngle: bool): (r: string)
    ensures '<' !in r && '>' !in r
    ensures |r| <= |s|
    decreases |s|
  {
    if s == [] then []
    else if s[0] == '<' then Strip(s[1..], true)
    else if s[0] == '>' then Strip(s[1..], false)
    else if inAngle then Strip(s[1..], true)
    else [s[0]] + Strip(s[1..], false)
  }

  /** The value of the flag after the loop has read `s`, starting at `inAngle`. */
  function AngleAfter(s: string, inAngle: bool): (open: bool)
    decreases |s|
  {
    if s == [] then inAngle
    else AngleAfter(s[1..], if s[0] == '<' then true else if s[0] == '>' then false else inAngle)
  }

  /** After reading one more character the flag is set by `<`, cleared by
      `>` and otherwise kept: it is set exactly when the last bracket read is
      a `<`. */
  lemma {:induction false} AngleAfterAppend(a: string, c: char, inAngle: bool)
    ensures AngleAfter(a + [c], inAngle) ==
      if c == '<' then true else if c == '>' then false else AngleAfter(a, inAngle)
    decreases |a|
  {
    if a != [] {
      var next := if a[0] == '<' then true else if a[0] == '>' then false else inAngle;
      AngleAfterAppend(a[1..], c, next);
      assert (a + [c])[1..] == a[1..] + [c];
    }
  }

  /** `a` can be obtained from `b` by deleting characters. */
  predicate IsSubsequence(a: string, b: string)
    decreases |b|
  {
    || a == []
    || (b != [] && ((a[0] == b[0] && IsSubsequence(a[1..], b[1..])) || IsSubsequence(a, b[1..])))
  }

  /** The loop of `show`, over the characters of `body`. */
  method Show(body: string) returns (printed: string)
    ensures printed == Strip(body, false)
    ensures '<' !in printed && '>' !in printed
  {
    var inAngle := false;
    printed := [];
    for i := 0 to |body|
      invariant printed + Strip(body[i..], inAngle) == Strip(body, false)
    {
      var c := body[i];
      assert body[i..] == [c] + body[i + 1..];
      if c == '<' {
        inAngle := true;
      } else if c == '>' {
        inAngle := false;
      } else if !inAngle {
        printed := printed + [c];
      }
    }
    assert body[|body|..] == [];
  }

  /** Only characters of the input are printed, in their input order. */
  lemma {:induction false} StripIsSubsequence(s: string, inAngle: bool)
    ensures IsSubsequence(Strip(s, inAngle), s)
    decreases |s|
  {
    if s != [] {
      StripIsSubsequence(s[1..], s[0] == '<' || (s[0] != '>' && inAngle));
      var rest := Strip(s[1..], s[0] == '<' || (s[0] != '>' && inAngle));
      if s[0] != '<' && s[0] != '>' && !inAngle {
        assert Strip(s, inAngle) == [s[0]] + rest;
        assert ([s[0]] + rest)[1..] == rest;
      } else {
        assert Strip(s, inAngle) == rest;
        SubsequenceOfTail(rest, s);
      }
    }
  }

  /** A subsequence of the tail is a subsequence of the whole. */
  lemma {:induction false} SubsequenceOfTail(a: string, b: string)
    requires b != [] && IsSubsequence(a, b[1..])
    ensures IsSubsequence(a, b)
  {
  }

  /** Text without brackets is printed unchanged. */
  lemma {:induction false} StripPlainText(s: string)
    requires '<' !in s && '>' !in s
    ensures Strip(s, false) == s
    decreases |s|
  {
    if s != [] {
      StripPlainText(s[1..]);
      assert s == [s[0]] + s[1..];
    }
  }

  /** Applying `show` to its own output changes nothing. */
  lemma ShowIdempotent(s: string)
    ensures Strip(Strip(s, false), false) == Strip(s, false)
  {
    StripPlainText(Strip(s, false));
  }

  /** The loop over `a + b` prints what it prints for `a`, then what it prints
      for `b` from the flag `a` leaves behind. */
  lemma {:induction false} StripConcat(a: string, b: string, inAngle: bool)
    ensures Strip(a + b, inAngle) == Strip(a, inAngle) + Strip(b, AngleAfter(a, inAngle))
    decreases |a|
  {
    if a != [] {
      var next := if a[0] == '<' then true else if a[0] == '>' then false else inAngle;
      StripConcat(a[1..], b, next);
      assert (a + b)[0] == a[0];
      assert (a + b)[1..] == a[1..] + b;
    } else {
      assert a + b == b;
    }
  }

  /** Inside a tag nothing is printed and the flag stays set until a `>`. */
  lemma {:induction false} InsideTag(a: string)
    requires '>' !in a
    ensures Strip(a, true) == [] && AngleAfter(a, true)
    decreases |a|
  {
    if a != [] {
      InsideTag(a[1..]);
    }
  }

  /** Tags do not nest: from a `<` everything is dropped up to and including
      the first `>`, even when a second `<` comes in between. */
  lemma TagDropped(a: string, b: string, inAngle: bool)
    requires '>' !in a
    ensures Strip(['<'] + a + ['>'] + b, inAngle) == Strip(b, false)
  {
    InsideTag(a);
    StripConcat(a, ['>'] + b, true);
    assert ['<'] + a + ['>'] + b == ['<'] + (a + (['>'] + b));
    assert (['>'] + b)[1..] == b;
  }

  /** A `>` read while no tag is open is dropped and changes nothing else. */
  lemma StrayCloseIgnored(a: string, b: string)
    requires !AngleAfter(a, false)
    ensures Strip(a + ['>'] + b, false) == Strip(a + b, false)
  {
    StripConcat(a, ['>'] + b, false);
    StripConcat(a, b, false);
    assert a + ['>'] + b == a + (['>'] + b);
    assert (['>'] + b)[1..] == b;
  }

  /** After a `<` that is never closed, nothing more is printed. */
  lemma UnclosedTagDropsRest(a: string, b: string)
    requires '>' !in b
    ensures Strip(a + ['<'] + b, false) == Strip(a, false)
  {
    StripConcat(a, ['<'] + b, false);
    InsideTag(b);
    assert a + ['<'] + b == a + (['<'] + b);
    assert (['<'] + b)[1..] == b;
  }
}
