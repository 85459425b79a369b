/** ASCII models of the three Python string methods the program relies on:
    `str.lower`, `str.endswith` and `str.strip` (without arguments). */
module Text {

  /** ASCII lower-casing of one character; every other character is kept. */
  function LowerChar(c: char): char
  {
    if 'A' <= c <= 'Z' then (c as int + 32) as char else c
  }

  /** `s.lower()`, restricted to ASCII letters: no upper-case letter is
      left, each one becomes its lower-case partner, and every other
      character is kept in place. */
  function Lower(s: string): (r: string)
    ensures |r| == |s|
    ensures forall i :: 0 <= i < |r| ==> !('A' <= r[i] <= 'Z')
    ensures forall i :: 0 <= i < |s| && 'A' <= s[i] <= 'Z' ==> r[i] as int == s[i] as int + 32
    ensures forall i :: 0 <= i < |s| && !('A' <= s[i] <= 'Z') ==> r[i] == s[i]
  {
    seq(|s|, i requires 0 <= i < |s| => LowerChar(s[i]))
  }

  /** `s.endswith(suffix)`. */
  predicate EndsWith(s: string, suffix: string)
  {
    |suffix| <= |s| && s[|s| - |suffix|..] == suffix
  }

  /** `s.lower().endswith(suffix)`, the test both the extension filter and
      the ".pdf" normalisation use: the tail of `s` as long as `suffix`,
      lower-cased, is `suffix`. */
  function EndsWithIgnoringCase(s: string, suffix: string): (b: bool)
    ensures b <==> |suffix| <= |s| && Lower(s[|s| - |suffix|..]) == suffix
  {
    if |suffix| <= |s| then
      assert Lower(s)[|s| - |suffix|..] == Lower(s[|s| - |suffix|..]);
      EndsWith(Lower(s), suffix)
    else false
  }

  /** The characters below 128 that `str.isspace` accepts:
      tab, line feed, vertical tab, form feed, carriage return,
      the four information separators and the space. */
  predicate IsSpace(c: char)
  {
    c == ' ' || 9 <= c as int <= 13 || 28 <= c as int <= 31
  }

  predicate AllSpace(s: string)
  {
    forall i :: 0 <= i < |s| ==> IsSpace(s[i])
  }

  /** Drops the leading whitespace of `s`. */
  function TrimStart(s: string): (r: string)
    ensures |r| <= |s| && r == s[|s| - |r|..]
    ensures AllSpace(s[..|s| - |r|])
    ensures r == [] || !IsSpace(r[0])
    decreases |s|
  {
    if s != [] && IsSpace(s[0]) then TrimStart(s[1..]) else s
  }

  /** Drops the trailing whitespace of `s`. */
  function TrimEnd(s: string): (r: string)
    ensures |r| <= |s| && r == s[..|r|]
    ensures AllSpace(s[|r|..])
    ensures r == [] || !IsSpace(r[|r| - 1])
    decreases |s|
  {
    if s != [] && IsSpace(s[|s| - 1]) then
      var r := TrimEnd(s[..|s| - 1]);
      assert s[|r|..] == s[..|s| - 1][|r|..] + [s[|s| - 1]];
      r
    else s
  }

  /** `s.strip()`: the text between the leading and the trailing whitespace.
      It is empty exactly when `s` holds nothing but whitespace, and
      otherwise neither starts nor ends with whitespace. */
  function Strip(s: string): (r: string)
    ensures r == [] <==> AllSpace(s)
    ensures r != [] ==> !IsSpace(r[0]) && !IsSpace(r[|r| - 1])
    ensures |r| <= |s|
  {
    var t := TrimStart(s);
    assert AllSpace(t) ==> AllSpace(s) by {
      if AllSpace(t) {
        assert t == [];
        assert s[..|s|] == s;
      }
    }
    var r := TrimEnd(t);
    assert r == [] ==> AllSpace(t) by {
      if r == [] {
        assert t[|r|..] == t;
      }
    }
    r
  }

  /** Lower-casing twice is lower-casing once. */
  lemma LowerIdempotent(s: string)
    ensures Lower(Lower(s)) == Lower(s)
  {
  }

  /** Lower-casing distributes over concatenation. */
  lemma LowerAppend(a: string, b: string)
    ensures Lower(a + b) == Lower(a) + Lower(b)
  {
    assert forall i :: 0 <= i < |a + b| ==> Lower(a + b)[i] == (Lower(a) + Lower(b))[i];
  }

  /** Stripping recovers the text between any whitespace padding, provided
      that text itself neither starts nor ends with whitespace. */
  lemma {:induction false} StripPadded(before: string, inner: string, after: string)
    requires AllSpace(before) && AllSpace(after)
    requires inner != [] && !IsSpace(inner[0]) && !IsSpace(inner[|inner| - 1])
    ensures Strip(before + inner + after) == inner
  {
    TrimStartPadded(before, inner + after);
    assert before + inner + after == before + (inner + after);
    TrimEndPadded(inner, after);
  }

  lemma {:induction false} TrimStartPadded(before: string, rest: string)
    requires AllSpace(before)
    requires rest != [] && !IsSpace(rest[0])
    ensures TrimStart(before + rest) == rest
    decreases |before|
  {
    if before != [] {
      var s := before + rest;
      assert s[0] == before[0] && IsSpace(s[0]);
      assert s[1..] == before[1..] + rest;
      assert AllSpace(before[1..]) by {
        forall i | 0 <= i < |before| - 1 ensures IsSpace(before[1..][i]) {
          assert before[1..][i] == before[i + 1];
        }
      }
      TrimStartPadded(before[1..], rest);
      assert TrimStart(s) == TrimStart(s[1..]);
    } else {
      assert before + rest == rest;
    }
  }

  lemma {:induction false} TrimEndPadded(rest: string, after: string)
    requires AllSpace(after)
    requires rest != [] && !IsSpace(rest[|rest| - 1])
    ensures TrimEnd(rest + after) == rest
    decreases |after|
  {
    if after != [] {
      var s := rest + after;
      assert s[|s| - 1] == after[|after| - 1] && IsSpace(s[|s| - 1]);
      assert s[..|s| - 1] == rest + after[..|after| - 1];
      var shorter := after[..|after| - 1];
      assert AllSpace(shorter) by {
        forall i | 0 <= i < |shorter| ensures IsSpace(shorter[i]) {
          assert shorter[i] == after[i];
        }
      }
      TrimEndPadded(rest, shorter);
      assert TrimEnd(s) == TrimEnd(s[..|s| - 1]);
    } else {
      assert rest + after == rest;
    }
  }
}
