/**
 * The pattern `^\[.+\] ?(.*)` of src/extension.ts and `replace(pattern, "$1")`, written out as
 * string functions. Without the `m` flag `^` is the start of the message; `.` matches any
 * character except the four line terminators, so the whole match lies on the first line.
 * Greedy `.+` reaches the last ']' of the first line (with at least one character between it
 * and the opening '['), ` ?` takes one space after it if there is one, and the rest of the first
 * line is the capture: replacing the match by the capture drops everything up to that point.
 */
module ExistingPrefix {
  import opened Wrappers

  /** The characters that JavaScript's `.` does not match. */
  predicate IsLineTerminator(c: char): (b: bool)
    ensures b <==> c in "\n\r\U{2028}\U{2029}"
  {
    c == '\n' || c == '\r' || c == '\U{2028}' || c == '\U{2029}'
  }

  /** `t` is a suffix of `s`: what `s.endsWith(t)` tests. */
  predicate IsSuffix(t: string, s: string) {
    |t| <= |s| && s[|s| - |t|..] == t
  }

  /** The index of the first line terminator at or after `i`, or `|s|` when there is none. */
  function LineEnd(s: string, i: nat): (e: nat)
    requires i <= |s|
    ensures i <= e <= |s|
    ensures forall k :: i <= k < e ==> !IsLineTerminator(s[k])
    ensures e == |s| || IsLineTerminator(s[e])
    decreases |s| - i
  {
    if i == |s| || IsLineTerminator(s[i]) then i else LineEnd(s, i + 1)
  }

  /** The first line of `s`, without its terminator. */
  function FirstLine(s: string): (line: string)
    ensures |line| <= |s| && line == s[..|line|]
    ensures forall k :: 0 <= k < |line| ==> !IsLineTerminator(line[k])
    ensures |line| == |s| || IsLineTerminator(s[|line|])
  {
    s[..LineEnd(s, 0)]
  }

  /**
   * Reference semantics of `^\[.+\]`: some way of letting `.+` run from index 1 up to a ']'
   * at index `j` matches, so `.+` covers indices 1 to j - 1, none of them a line terminator.
   */
  ghost predicate BracketMatch(s: string, j: int) {
    0 < |s| && s[0] == '[' && 2 <= j < |s| && s[j] == ']' &&
    forall k :: 1 <= k < j ==> !IsLineTerminator(s[k])
  }

  /** The last index `j` with `2 <= j < e` and `s[j] == ']'`. */
  function LastCloseBefore(s: string, e: nat): (r: Option<nat>)
    requires e <= |s|
    ensures r.Some? ==> 2 <= r.value < e && s[r.value] == ']'
    ensures r.Some? ==> forall k :: r.value < k < e ==> s[k] != ']'
    ensures r.None? ==> forall k :: 2 <= k < e ==> s[k] != ']'
  {
    if e <= 2 then None
    else if s[e - 1] == ']' then Some(e - 1)
    else LastCloseBefore(s, e - 1)
  }

  /** Where greedy `.+` stops: the index of the ']' that ends the bracketed prefix, if any. */
  function CloseIndex(s: string): (r: Option<nat>)
    ensures r.Some? ==> BracketMatch(s, r.value) && r.value < |FirstLine(s)|
    ensures r.Some? ==> forall k :: r.value < k < |FirstLine(s)| ==> s[k] != ']'
    ensures r.None? ==> |s| == 0 || s[0] != '[' || forall k :: 2 <= k < |FirstLine(s)| ==> s[k] != ']'
  {
    if 0 < |s| && s[0] == '[' then LastCloseBefore(s, LineEnd(s, 0)) else None
  }

  /** `existingPattern.test(s)`. */
  predicate HasExistingPrefix(s: string): (b: bool)
    ensures b ==> |FirstLine(s)| >= 3 && s[0] == '[' && ']' in FirstLine(s)[2..]
  {
    CloseIndex(s).Some?
  }

  /** Every attempt of `^\[.+\]` ends on the first line. */
  lemma BracketMatchOnFirstLine(s: string, j: int)
    requires BracketMatch(s, j)
    ensures j < LineEnd(s, 0)
  {
    var e := LineEnd(s, 0);
    assert e == |s| || IsLineTerminator(s[e]);
  }

  /** The greedy attempt is the one the regex reports: the last ']' any attempt could end on. */
  lemma CloseIndexIff(s: string, j: int)
    ensures CloseIndex(s) == Some(j) <==>
            BracketMatch(s, j) && forall j' :: BracketMatch(s, j') ==> j' <= j
  {
    if 0 < |s| && s[0] == '[' {
      var e := LineEnd(s, 0);
      forall j' | BracketMatch(s, j')
        ensures j' < e
      {
        BracketMatchOnFirstLine(s, j');
      }
      var r := LastCloseBefore(s, e);
      if r.Some? {
        assert BracketMatch(s, r.value);
      }
    }
  }

  /** The test succeeds exactly when some attempt of `^\[.+\]` matches. */
  lemma HasExistingPrefixIff(s: string)
    ensures HasExistingPrefix(s) <==> exists j :: BracketMatch(s, j)
  {
    if HasExistingPrefix(s) {
      CloseIndexIff(s, CloseIndex(s).value);
    } else {
      forall j | BracketMatch(s, j)
        ensures false
      {
        BracketMatchOnFirstLine(s, j);
      }
    }
  }

  /** Where the text the replacement keeps begins: 0 when the pattern does not match. */
  function Cut(s: string): (k: nat)
    ensures k <= |FirstLine(s)|
    ensures k == 0 <==> !HasExistingPrefix(s)
  {
    match CloseIndex(s)
    case None => 0
    case Some(j) =>
      assert j < LineEnd(s, 0);
      if j + 1 < |s| && s[j + 1] == ' ' then
        assert !IsLineTerminator(s[j + 1]);
        j + 2
      else
        j + 1
  }

  /**
   * `s.replace(existingPattern, "$1")`: the message after the prefix's ']' and at most one
   * space; a message the pattern does not match is returned as it is.
   */
  function Strip(s: string): (r: string)
    ensures IsSuffix(r, s)
    ensures !HasExistingPrefix(s) ==> r == s
    ensures HasExistingPrefix(s) ==> |r| < |s|
  {
    s[Cut(s)..]
  }

  /**
   * After a strip the first line holds no ']', and every line after the first is untouched.
   */
  lemma StripFirstLine(s: string)
    ensures HasExistingPrefix(s) ==> ']' !in FirstLine(Strip(s))
    ensures s[|FirstLine(s)|..] == Strip(s)[|FirstLine(Strip(s))|..]
  {
    var k, e := Cut(s), LineEnd(s, 0);
    LineEndShift(s, k, e);
    assert FirstLine(s[k..]) == s[k..e];
  }

  lemma LineEndShift(s: string, k: nat, e: nat)
    requires k <= e <= |s| && e == LineEnd(s, 0)
    ensures LineEnd(s[k..], 0) == e - k
  {
  }

  /** A message whose first line holds no ']' carries no prefix the pattern can see. */
  lemma NoCloseNoPrefix(s: string)
    requires ']' !in FirstLine(s)
    ensures !HasExistingPrefix(s)
  {
  }

  /**
   * The strip in terms of the regex's own semantics: when the reported attempt ends on the ']'
   * at `j`, the result is what follows it, less one space if a space comes next.
   */
  lemma StripAt(s: string, j: nat)
    requires BracketMatch(s, j) && forall j' :: BracketMatch(s, j') ==> j' <= j
    ensures j + 1 < |s| && s[j + 1] == ' ' ==> Strip(s) == s[j + 2..]
    ensures !(j + 1 < |s| && s[j + 1] == ' ') ==> Strip(s) == s[j + 1..]
  {
    CloseIndexIff(s, j);
    StripAtClose(s, j);
  }

  lemma StripAtClose(s: string, j: nat)
    requires CloseIndex(s) == Some(j)
    ensures j + 1 < |s| && s[j + 1] == ' ' ==> Strip(s) == s[j + 2..]
    ensures !(j + 1 < |s| && s[j + 1] == ' ') ==> Strip(s) == s[j + 1..]
  {
  }

  /** Stripping twice is stripping once: after a strip the first line holds no ']'. */
  lemma StripIdempotent(s: string)
    ensures Strip(Strip(s)) == Strip(s)
  {
    if HasExistingPrefix(s) {
      StripFirstLine(s);
      NoCloseNoPrefix(Strip(s));
    }
  }

  /** A ']' with no line terminator before it lies on the first line. */
  lemma CloseOnFirstLine(m: string, x: int)
    requires 0 <= x < |m| && m[x] == ']'
    requires forall k :: 0 <= k < x ==> !IsLineTerminator(m[k])
    ensures ']' in FirstLine(m)
  {
    var e := LineEnd(m, 0);
    assert e == |m| || IsLineTerminator(m[e]);
    assert FirstLine(m)[x] == ']';
  }

  /**
   * Round trip with the format `[${prefix}] ${message}`: stripping a formatted message gives the
   * message back exactly when the message's first line holds no ']'; otherwise greedy `.+` runs
   * on into the message and the strip loses some of its text.
   */
  lemma StripUndoesFormat(p: string, m: string)
    requires |p| >= 1 && forall c :: c in p ==> !IsLineTerminator(c)
    ensures ']' !in FirstLine(m) ==> Strip("[" + p + "] " + m) == m
    ensures ']' in FirstLine(m) ==> |Strip("[" + p + "] " + m)| < |m|
  {
    var t := "[" + p + "] " + m;
    var j := |p| + 1;
    var e := LineEnd(m, 0);
    assert t[j] == ']' && t[j + 1] == ' ';
    assert forall k :: j + 2 <= k < |t| ==> t[k] == m[k - j - 2];
    assert BracketMatch(t, j) by {
      forall k | 1 <= k < j
        ensures !IsLineTerminator(t[k])
      {
        assert t[k] == p[k - 1];
      }
    }
    if ']' !in FirstLine(m) {
      forall j' | BracketMatch(t, j')
        ensures j' <= j
      {
        if j' > j {
          forall k | 0 <= k < j' - j - 2
            ensures !IsLineTerminator(m[k])
          {
            assert m[k] == t[k + j + 2];
          }
          CloseOnFirstLine(m, j' - j - 2);
        }
      }
      StripAt(t, j);
      assert t[j + 2..] == m;
    } else {
      var x :| 0 <= x < |FirstLine(m)| && FirstLine(m)[x] == ']';
      assert BracketMatch(t, j + 2 + x) by {
        forall k | 1 <= k < j + 2 + x
          ensures !IsLineTerminator(t[k])
        {
          if k < j {
            assert t[k] == p[k - 1];
          }
        }
      }
      HasExistingPrefixIff(t);
      var c := CloseIndex(t).value;
      CloseIndexIff(t, c);
      StripAtClose(t, c);
    }
  }

  /**
   * Stripping a message "[" + inner + "]" + tail whose tail holds no ']': the ']' after `inner`
   * is the last one on the first line, so the tail is kept, less one leading space.
   */
  lemma StripBeforeTail(inner: string, tail: string)
    requires |inner| >= 1 && forall c :: c in inner ==> !IsLineTerminator(c)
    requires ']' !in tail
    ensures Strip("[" + inner + "]" + tail) == if 0 < |tail| && tail[0] == ' ' then tail[1..] else tail
  {
    var s := "[" + inner + "]" + tail;
    var j := |inner| + 1;
    assert s[j] == ']';
    assert BracketMatch(s, j) by {
      forall k | 1 <= k < j
        ensures !IsLineTerminator(s[k])
      {
        assert s[k] == inner[k - 1];
      }
    }
    assert forall k :: j < k < |s| ==> s[k] == tail[k - j - 1];
    StripAt(s, j);
    assert s[j + 1..] == tail;
  }

  /** A stale ticket prefix and the space after it are removed. */
  lemma StripStaleTicketExample()
    ensures Strip("[" + "ML-42" + "] " + "fix bug") == "fix bug"
  {
    StripUndoesFormat("ML-42", "fix bug");
  }

  /** Greedy `.+` runs to the last ']' of the first line, into the message text. */
  lemma StripGreedyExample()
    ensures Strip("[" + "ML-1] fix a" + "]" + "b") == "b"
  {
    StripBeforeTail("ML-1] fix a", "b");
  }

  /** Only the first line is searched: a ']' on a later line does not extend the match. */
  lemma StripFirstLineOnlyExample()
    ensures Strip("[" + "ML-1" + "] " + "a\nb] c") == "a\nb] c"
  {
    assert LineEnd("a\nb] c", 0) == 1;
    StripUndoesFormat("ML-1", "a\nb] c");
  }
}
