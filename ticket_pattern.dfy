/**
 * The branch-name pattern `(ML-\d+)-.*` of src/extension.ts, written out as string
 * functions. The pattern is searched for anywhere in the branch name (it is not anchored);
 * its one capture group is the ticket ID, "ML-" followed by the digits that `\d+` consumed.
 */
module TicketPattern {
  import opened Wrappers

  /** `\d` without the `u` flag: the ASCII digits only. */
  predicate IsDigit(c: char): (b: bool)
    ensures b <==> c in "0123456789"
  {
    '0' <= c <= '9'
  }

  /**
   * Reference semantics of the pattern: it matches `s` at index `i` with `\d+` consuming
   * exactly `n` digits. The trailing `.*` may match zero characters, so it adds nothing.
   */
  ghost predicate Matches(s: string, i: int, n: int) {
    0 <= i && 1 <= n && i + 3 + n < |s| &&
    s[i..i + 3] == "ML-" &&
    (forall k :: i + 3 <= k < i + 3 + n ==> IsDigit(s[k])) &&
    s[i + 3 + n] == '-'
  }

  /** No way of matching the pattern starts before index `i`. */
  ghost predicate NoMatchBefore(s: string, i: int) {
    forall j, n :: j < i ==> !Matches(s, j, n)
  }

  /** The length of the run of digits that starts at index `i`: greedy `\d+` takes all of it. */
  function DigitRun(s: string, i: nat): (n: nat)
    requires i <= |s|
    ensures i + n <= |s|
    ensures forall k :: i <= k < i + n ==> IsDigit(s[k])
    ensures i + n == |s| || !IsDigit(s[i + n])
    decreases |s| - i
  {
    if i < |s| && IsDigit(s[i]) then 1 + DigitRun(s, i + 1) else 0
  }

  /** The pattern matches at index `i`, with greedy `\d+` taking the whole digit run. */
  predicate MatchesAt(s: string, i: nat): (b: bool)
    ensures b ==> i + 3 <= |s| && Matches(s, i, DigitRun(s, i + 3))
  {
    i + 3 <= |s| && s[i..i + 3] == "ML-" &&
    var n := DigitRun(s, i + 3);
    1 <= n && i + 3 + n < |s| && s[i + 3 + n] == '-'
  }

  /** Backtracking over shorter digit runs finds no other match: the greedy attempt decides. */
  lemma MatchesAtIff(s: string, i: nat)
    ensures MatchesAt(s, i) <==> exists n :: Matches(s, i, n)
    ensures forall n :: Matches(s, i, n) ==> i + 3 <= |s| && n == DigitRun(s, i + 3)
  {
    forall n | Matches(s, i, n)
      ensures n == DigitRun(s, i + 3)
    {
      var m := DigitRun(s, i + 3);
      assert !IsDigit(s[i + 3 + m]) || !IsDigit(s[i + 3 + n]);
    }
    if MatchesAt(s, i) {
      assert Matches(s, i, DigitRun(s, i + 3));
    }
  }

  /** The leftmost index at or after `i` where the pattern matches: the regex engine's scan. */
  function FindFrom(s: string, i: nat): (r: Option<nat>)
    requires i <= |s|
    ensures r.Some? ==> i <= r.value < |s| && MatchesAt(s, r.value)
    ensures r.Some? ==> forall k :: i <= k < r.value ==> !MatchesAt(s, k)
    ensures r.None? ==> forall k :: i <= k <= |s| ==> !MatchesAt(s, k)
    decreases |s| - i
  {
    if i == |s| then None
    else if MatchesAt(s, i) then Some(i)
    else FindFrom(s, i + 1)
  }

  /** The capture group of a match at `i`: "ML-" and the whole digit run after it. */
  function Capture(s: string, i: nat): (t: string)
    requires MatchesAt(s, i)
    ensures |t| >= 4 && t[..3] == "ML-"
    ensures forall k :: 3 <= k < |t| ==> IsDigit(t[k])
    ensures i + |t| < |s| && s[i..i + |t|] == t && s[i + |t|] == '-'
  {
    s[i..i + 3 + DigitRun(s, i + 3)]
  }

  /** `branch.match(pattern)[1]`, or None when `pattern.test(branch)` is false. */
  function BranchPrefix(branch: string): (r: Option<string>)
    ensures r.Some? ==> |r.value| >= 4 && r.value[..3] == "ML-"
    ensures r.Some? ==> forall k :: 3 <= k < |r.value| ==> IsDigit(r.value[k])
    ensures r.Some? ==> forall k :: 0 <= k < |r.value| ==> r.value[k] != ']' && r.value[k] != ' '
  {
    match FindFrom(branch, 0)
    case None => None
    case Some(i) => Some(Capture(branch, i))
  }

  /** The test fails exactly when no way of matching exists anywhere in the branch name. */
  lemma BranchPrefixNone(branch: string)
    ensures BranchPrefix(branch).None? <==> forall i, n :: !Matches(branch, i, n)
  {
    if BranchPrefix(branch).None? {
      forall i, n | 0 <= i
        ensures !Matches(branch, i, n)
      {
        if i <= |branch| {
          MatchesAtIff(branch, i);
        }
      }
    } else {
      var i := FindFrom(branch, 0).value;
      MatchesAtIff(branch, i);
    }
  }

  /**
   * When the leftmost match starts at `i` and `\d+` consumes `n` digits there, the prefix is
   * "ML-" followed by exactly those digits, and they are followed by '-' in the branch name.
   */
  lemma BranchPrefixSome(branch: string, i: nat, n: nat)
    requires Matches(branch, i, n) && NoMatchBefore(branch, i)
    ensures BranchPrefix(branch) == Some("ML-" + branch[i + 3..i + 3 + n])
    ensures branch[i + 3 + n] == '-'
  {
    MatchesAtIff(branch, i);
    forall k | 0 <= k < i
      ensures !MatchesAt(branch, k)
    {
      MatchesAtIff(branch, k);
    }
    FindFromLeftmost(branch, 0, i);
    assert branch[i..i + 3 + n] == branch[i..i + 3] + branch[i + 3..i + 3 + n];
  }

  lemma {:induction false} FindFromLeftmost(s: string, from: nat, i: nat)
    requires from <= i < |s| && MatchesAt(s, i)
    requires forall k :: from <= k < i ==> !MatchesAt(s, k)
    ensures FindFrom(s, from) == Some(i)
    decreases i - from
  {
    if from < i {
      FindFromLeftmost(s, from + 1, i);
    }
  }

  /** A branch name that starts with a ticket: "ML-", digits, '-' and anything after. */
  lemma LeadingTicket(digits: string, rest: string)
    requires |digits| >= 1 && forall c :: c in digits ==> IsDigit(c)
    ensures BranchPrefix("ML-" + digits + "-" + rest) == Some("ML-" + digits)
  {
    var b, n := "ML-" + digits + "-" + rest, |digits|;
    assert b[..3] == "ML-" && b[3..3 + n] == digits && b[3 + n] == '-';
    forall k | 3 <= k < 3 + n
      ensures IsDigit(b[k])
    {
      assert b[k] == digits[k - 3];
    }
    BranchPrefixSome(b, 0, n);
  }

  /** "ML-123-something" carries the ticket "ML-123". */
  lemma TicketOf123Example()
    ensures BranchPrefix("ML-123-something") == Some("ML-123")
  {
    assert "ML-" + "123" + "-" + "something" == "ML-123-something";
    assert "ML-" + "123" == "ML-123";
    LeadingTicket("123", "something");
  }

  /** "ML-43-fix" carries the ticket "ML-43". */
  lemma TicketOf43Example()
    ensures BranchPrefix("ML-43-fix") == Some("ML-43")
  {
    assert "ML-" + "43" + "-" + "fix" == "ML-43-fix";
    assert "ML-" + "43" == "ML-43";
    LeadingTicket("43", "fix");
  }

  /** "ML-12-x" carries the ticket "ML-12". */
  lemma TicketOf12Example()
    ensures BranchPrefix("ML-12-x") == Some("ML-12")
  {
    assert "ML-" + "12" + "-" + "x" == "ML-12-x";
    assert "ML-" + "12" == "ML-12";
    LeadingTicket("12", "x");
  }

  /** "ML-1-x" carries the ticket "ML-1". */
  lemma TicketOf1Example()
    ensures BranchPrefix("ML-1-x") == Some("ML-1")
  {
    assert "ML-" + "1" + "-" + "x" == "ML-1-x";
    assert "ML-" + "1" == "ML-1";
    LeadingTicket("1", "x");
  }

  /** A branch without a ticket, such as "main" or the empty name of a missing HEAD. */
  lemma NoTicketExamples()
    ensures BranchPrefix("main") == None
    ensures BranchPrefix("") == None
  {
    BranchPrefixNone("main");
    BranchPrefixNone("");
  }

  /** The search is unanchored: "feature/ML-12-x" gives "ML-12". */
  lemma UnanchoredExample()
    ensures BranchPrefix("feature/ML-12-x") == Some("ML-12")
  {
    var b := "feature/ML-12-x";
    assert 'M' !in b[..8];
    forall j, n | j < 8
      ensures !Matches(b, j, n)
    {
      if 0 <= j {
        assert b[j] == b[..8][j];
      }
    }
    BranchPrefixSome(b, 8, 2);
    assert "ML-" + b[11..13] == "ML-12";
  }
}
