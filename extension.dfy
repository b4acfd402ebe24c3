/**
 * The commit-message prefixer of src/extension.ts: `getCommitMessage`, which puts the ticket ID
 * of the branch in front of the draft message, and `updateCommitMessage`, which strips an old
 * bracketed prefix from a repository's message box and applies the current one.
 */
module Extension {
  import opened Wrappers
  import opened TicketPattern
  import opened ExistingPrefix

  /**
   * `getCommitMessage(branch, currentMessage)`: no ticket in the branch name, or a message that
   * already starts with the ticket ID, leaves the message as it is; otherwise the message gets
   * the prefix "[<ticket>] ". Either way the result ends with the message.
   */
  function GetCommitMessage(branch: string, currentMessage: string): (r: string)
    ensures IsSuffix(currentMessage, r)
  {
    match BranchPrefix(branch)
    case None => currentMessage
    case Some(prefix) =>
      if prefix <= currentMessage then currentMessage
      else "[" + prefix + "] " + currentMessage
  }

  /** A branch name with no "ML-<digits>-" anywhere leaves the message unchanged. */
  lemma NoTicketUnchanged(branch: string, currentMessage: string)
    requires forall i, n :: !Matches(branch, i, n)
    ensures GetCommitMessage(branch, currentMessage) == currentMessage
  {
    BranchPrefixNone(branch);
  }

  /**
   * With the leftmost match at `i` and `n` digits, the prefix is "ML-" and those digits. A
   * message starting with it is left alone; any other message gets exactly "[" + prefix + "] "
   * in front, three characters more than the prefix.
   */
  lemma TicketApplied(branch: string, currentMessage: string, i: nat, n: nat)
    requires Matches(branch, i, n) && NoMatchBefore(branch, i)
    ensures var prefix := "ML-" + branch[i + 3..i + 3 + n];
      var r := GetCommitMessage(branch, currentMessage);
      (prefix <= currentMessage ==> r == currentMessage) &&
      (!(prefix <= currentMessage) ==>
         r == "[" + prefix + "] " + currentMessage && |r| == |prefix| + 3 + |currentMessage|)
  {
    BranchPrefixSome(branch, i, n);
  }

  /** The message written back by `updateCommitMessage`: strip, then prefix. */
  function UpdatedMessage(branch: string, message: string): (r: string)
    ensures IsSuffix(Strip(message), r)
    ensures BranchPrefix(branch).None? ==> r == Strip(message)
  {
    GetCommitMessage(branch, Strip(message))
  }

  /**
   * Running the update a second time changes nothing exactly when the branch has no ticket,
   * the stripped message already starts with the ticket ID, or the stripped message's first
   * line holds no ']'. In the remaining case greedy `.+` eats into the message.
   */
  lemma UpdateIdempotentIff(branch: string, message: string)
    ensures var once := UpdatedMessage(branch, message);
      UpdatedMessage(branch, once) == once <==>
        BranchPrefix(branch).None? || BranchPrefix(branch).value <= Strip(message) ||
        ']' !in FirstLine(Strip(message))
  {
    match BranchPrefix(branch)
    case None =>
      UpdateTwiceNoTicket(branch, message);
    case Some(prefix) =>
      if prefix <= Strip(message) {
        UpdateTwiceKept(branch, message, prefix);
      } else {
        UpdateTwicePrefixed(branch, message, prefix);
      }
  }

  /** With no ticket in the branch name a second update changes nothing. */
  lemma UpdateTwiceNoTicket(branch: string, message: string)
    requires BranchPrefix(branch).None?
    ensures UpdatedMessage(branch, UpdatedMessage(branch, message)) == UpdatedMessage(branch, message)
  {
    StripIdempotent(message);
    UpdateLeavesAlone(branch, Strip(message));
  }

  /** When the stripped message already starts with the ticket ID a second update changes nothing. */
  lemma UpdateTwiceKept(branch: string, message: string, prefix: string)
    requires BranchPrefix(branch) == Some(prefix) && prefix <= Strip(message)
    ensures UpdatedMessage(branch, UpdatedMessage(branch, message)) == UpdatedMessage(branch, message)
  {
    var s := Strip(message);
    StripIdempotent(message);
    assert UpdatedMessage(branch, message) == s;
    UpdateLeavesAlone(branch, s);
  }

  /**
   * When the first update puts the ticket prefix in front, a second update changes nothing
   * exactly when the stripped message's first line holds no ']'.
   */
  lemma UpdateTwicePrefixed(branch: string, message: string, prefix: string)
    requires BranchPrefix(branch) == Some(prefix) && !(prefix <= Strip(message))
    ensures UpdatedMessage(branch, UpdatedMessage(branch, message)) == UpdatedMessage(branch, message) <==>
            ']' !in FirstLine(Strip(message))
  {
    var s := Strip(message);
    assert UpdatedMessage(branch, message) == "[" + prefix + "] " + s;
    ReapplyFormatted(branch, prefix, s);
  }

  /**
   * A message with nothing to strip is left alone when the branch has no ticket or the
   * message already starts with it.
   */
  lemma UpdateLeavesAlone(branch: string, s: string)
    requires Strip(s) == s
    requires BranchPrefix(branch).None? || BranchPrefix(branch).value <= s
    ensures UpdatedMessage(branch, s) == s
  {
  }

  /**
   * Updating a freshly prefixed message "[" + prefix + "] " + s on the same branch gives it
   * back exactly when the first line of `s` holds no ']'.
   */
  lemma ReapplyFormatted(branch: string, prefix: string, s: string)
    requires BranchPrefix(branch) == Some(prefix) && !(prefix <= s)
    ensures UpdatedMessage(branch, "[" + prefix + "] " + s) == "[" + prefix + "] " + s <==>
            ']' !in FirstLine(s)
  {
    var once := "[" + prefix + "] " + s;
    TicketHasNoTerminator(prefix);
    StripUndoesFormat(prefix, s);
    var again := Strip(once);
    if ']' !in FirstLine(s) {
      assert again == s;
    } else {
      assert |again| < |s|;
      assert |GetCommitMessage(branch, again)| < |once|;
    }
  }

  /** A ticket ID lies on one line: it is "ML-" and digits. */
  lemma TicketHasNoTerminator(prefix: string)
    requires |prefix| >= 4 && prefix[..3] == "ML-"
    requires forall k :: 3 <= k < |prefix| ==> IsDigit(prefix[k])
    ensures forall c :: c in prefix ==> !IsLineTerminator(c)
  {
    forall k | 0 <= k < |prefix|
      ensures !IsLineTerminator(prefix[k])
    {
      if k < 3 {
        assert prefix[k] == prefix[..3][k];
      }
    }
  }

  /** The update is idempotent when the stripped message's first line holds no ']'. */
  lemma UpdateIdempotent(branch: string, message: string)
    requires ']' !in FirstLine(Strip(message))
    ensures UpdatedMessage(branch, UpdatedMessage(branch, message)) == UpdatedMessage(branch, message)
  {
    UpdateIdempotentIff(branch, message);
  }

  /** That condition always holds when a bracketed prefix was actually stripped. */
  lemma UpdateIdempotentAfterStrip(branch: string, message: string)
    requires HasExistingPrefix(message)
    ensures UpdatedMessage(branch, UpdatedMessage(branch, message)) == UpdatedMessage(branch, message)
  {
    StripFirstLine(message);
    UpdateIdempotent(branch, message);
  }

  /** With no HEAD the branch name is "", which carries no ticket: the update only strips. */
  lemma NoHeadOnlyStrips(message: string)
    ensures UpdatedMessage("", message) == Strip(message)
  {
    NoTicketExamples();
  }

  /** A message with no bracketed prefix that does not start with the ticket ID gets the prefix. */
  lemma UpdateFreshMessage(branch: string, message: string, prefix: string)
    requires BranchPrefix(branch) == Some(prefix)
    requires !HasExistingPrefix(message) && !(prefix <= message)
    ensures UpdatedMessage(branch, message) == "[" + prefix + "] " + message
  {
    assert Strip(message) == message;
  }

  /** The literal texts of the examples below, put together from their parts. */
  lemma ExampleTexts()
    ensures "[" + "ML-123" + "] " + "initial commit" == "[ML-123] initial commit"
    ensures "[" + "ML-43" + "] " + "fix bug" == "[ML-43] fix bug"
    ensures "[" + "ML-1" + "] " + "fix a]b" == "[ML-1] fix a]b"
    ensures "[" + "ML-1" + "] " + "b" == "[ML-1] b"
    ensures "[" + "ML-42" + "] " + "fix bug" == "[ML-42] fix bug"
    ensures "[" + "ML-1] fix a" + "]" + "b" == "[ML-1] fix a]b"
    ensures "ML-12" + "3 foo" == "ML-123 foo"
  {
  }

  /** A first commit on a ticket branch gets the ticket prefix. */
  lemma FirstCommitExample()
    ensures UpdatedMessage("ML-123-something", "initial commit") == "[ML-123] initial commit"
  {
    TicketOf123Example();
    ExampleTexts();
    assert "initial commit"[0] != 'M';
  }

  /** After a switch to another ticket branch the stale prefix is replaced, not stacked. */
  lemma StalePrefixExample()
    ensures UpdatedMessage("ML-43-fix", "[ML-42] fix bug") == "[ML-43] fix bug"
  {
    TicketOf43Example();
    StripStaleTicketExample();
    ExampleTexts();
    assert "fix bug"[0] != 'M';
  }

  /** `startsWith` compares raw text: "ML-123 foo" already starts with "ML-12". */
  lemma AlreadyStartsExample()
    ensures GetCommitMessage("ML-12-x", "ML-123 foo") == "ML-123 foo"
  {
    TicketOf12Example();
    ExampleTexts();
  }

  /** A message with a ']' of its own gets the prefix like any other. */
  lemma CloseInMessageExample()
    ensures UpdatedMessage("ML-1-x", "fix a]b") == "[ML-1] fix a]b"
  {
    TicketOf1Example();
    ExampleTexts();
    assert !HasExistingPrefix("fix a]b") by {
      assert "fix a]b"[0] != '[';
    }
    assert !("ML-1" <= "fix a]b") by {
      assert "fix a]b"[0] != 'M';
    }
    UpdateFreshMessage("ML-1-x", "fix a]b", "ML-1");
  }

  /**
   * The update is not idempotent in general: a ']' in the message's first line is where
   * greedy `.+` stops on the next update, so "fix a" is lost.
   */
  lemma NotIdempotentExample()
    ensures UpdatedMessage("ML-1-x", "[ML-1] fix a]b") == "[ML-1] b"
  {
    TicketOf1Example();
    StripGreedyExample();
    ExampleTexts();
    var stripped := Strip("[ML-1] fix a]b");
    assert stripped == "b";
    assert !("ML-1" <= stripped) by {
      assert stripped[0] != 'M';
    }
    assert GetCommitMessage("ML-1-x", stripped) == "[" + "ML-1" + "] " + "b";
  }

  /** The head of a repository: a ref whose name may be absent (a detached HEAD). */
  datatype Head = Head(name: Option<string>)

  /** One repository: the branch it is on and the text of its commit-message box. */
  class Repository {
    var head: Option<Head>   // repo.state.HEAD
    var value: string        // repo.inputBox.value

    constructor (head: Option<Head>, value: string)
      ensures this.head == head && this.value == value
    {
      this.head := head;
      this.value := value;
    }

    /** `repo.state.HEAD?.name ?? ""`. */
    function BranchName(): (name: string)
      reads this
      ensures head.Some? && head.value.name.Some? ==> name == head.value.name.value
      ensures head.None? || head.value.name.None? ==> name == ""
    {
      match head
      case Some(Head(Some(name))) => name
      case _ => ""
    }

    /**
     * `updateCommitMessage(repo)`: the message box afterwards holds the old message with any
     * bracketed prefix stripped and the current branch's ticket prefix applied.
     */
    method UpdateCommitMessage()
      modifies this`value
      ensures value == UpdatedMessage(old(BranchName()), old(value))
      ensures head == old(head)
    {
      var branch := BranchName();
      if HasExistingPrefix(value) {
        value := Strip(value);
      }
      value := GetCommitMessage(branch, value);
    }
  }
}
