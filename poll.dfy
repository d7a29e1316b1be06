/** The poll record (app/Poll.php): its settings, options and votes, the
    derived closed and results-visible attributes, and the issuing of voting
    codes into the application-wide code table. */
module Polls {
  import opened Records

  /** The voting-code table of the whole application. Codes are identified by
      fresh ids (UUIDs in the application); a counter stands in for the
      generator, so every id handed out is new. */
  class CodeTable {
    var codes: seq<VotingCode>
    var nextId: CodeId

    ghost predicate Valid()
      reads this
    {
      (forall i :: 0 <= i < |codes| ==> codes[i].id < nextId) && DistinctIds(codes)
    }

    constructor ()
      ensures Valid() && codes == []
    {
      codes := [];
      nextId := 0;
    }

    /** A code id that no row of the table carries. */
    method FreshId() returns (id: CodeId)
      requires Valid()
      modifies this`nextId
      ensures Valid()
      ensures id == old(nextId) && nextId == id + 1
      ensures forall i :: 0 <= i < |codes| ==> codes[i].id < id
    {
      id := nextId;
      nextId := nextId + 1;
    }
  }

  class Poll {
    const id: PollId
    const question: string
    const duplicateVoteChecking: Strategy
    const allowMultipleAnswers: bool
    var hideResultsUntilClosed: bool
    /** closes_at as an integer timestamp, or null. */
    var closesAt: Option<int>
    var adminPassword: Option<string>
    var options: seq<PollOption>
    var votes: seq<PollVote>

    constructor (id: PollId, question: string, duplicateVoteChecking: Strategy,
                 allowMultipleAnswers: bool, hideResultsUntilClosed: bool,
                 closesAt: Option<int>, adminPassword: Option<string>)
      ensures this.id == id && this.question == question
      ensures this.duplicateVoteChecking == duplicateVoteChecking
      ensures this.allowMultipleAnswers == allowMultipleAnswers
      ensures this.hideResultsUntilClosed == hideResultsUntilClosed
      ensures this.closesAt == closesAt && this.adminPassword == adminPassword
      ensures options == [] && votes == []
    {
      this.id := id;
      this.question := question;
      this.duplicateVoteChecking := duplicateVoteChecking;
      this.allowMultipleAnswers := allowMultipleAnswers;
      this.hideResultsUntilClosed := hideResultsUntilClosed;
      this.closesAt := closesAt;
      this.adminPassword := adminPassword;
      options := [];
      votes := [];
    }

    /** The option lookup scoped to this poll finds the id. */
    predicate HasOption(optionId: OptionId)
      reads this`options
    {
      NamesOption(options, optionId)
    }

    /** The poll's rows are consistent: its options have distinct ids and each
        of its votes is for one of its options. */
    predicate Valid()
      reads this`options, this`votes
    {
      DistinctOptionIds(options) && VotesNameOptions(options, votes)
    }

    /** The number of this poll's codes that are not used yet. */
    function UnusedCodes(table: CodeTable): nat
      reads table
    {
      UnusedCodeCount(table.codes, id)
    }

    /** closes_at is set and in the past */
    predicate DeadlinePassed(now: int)
      reads this
    {
      closesAt.Some? && closesAt.value < now
    }

    /** The closed attribute: the deadline has passed, or this is a codes poll
        with no unused code left. */
    predicate Closed(now: int, table: CodeTable)
      reads this, table
    {
      DeadlinePassed(now) || (duplicateVoteChecking == Codes && UnusedCodes(table) == 0)
    }

    /** The results_visible attribute. */
    predicate ResultsVisible(now: int, table: CodeTable)
      reads this, table
    {
      !hideResultsUntilClosed || Closed(now, table)
    }

    /** createVotingCodes: n new unused codes of this poll, saved as one
        batch at the end of the table and returned in creation order. */
    method CreateVotingCodes(n: nat, table: CodeTable) returns (created: seq<VotingCode>)
      requires table.Valid()
      modifies table
      ensures table.Valid()
      ensures |created| == n
      ensures forall k :: 0 <= k < n ==> created[k].pollId == id && !created[k].used
      ensures forall k, i :: 0 <= k < n && 0 <= i < |old(table.codes)| ==>
                created[k].id != old(table.codes)[i].id
      ensures table.codes == old(table.codes) + created
      ensures UnusedCodes(table) == old(UnusedCodes(table)) + n
    {
      ghost var start := table.nextId;
      created := [];
      var i := 0;
      while i < n
        invariant 0 <= i <= n && |created| == i
        invariant table.codes == old(table.codes) && table.Valid()
        invariant table.nextId == start + i
        invariant forall k :: 0 <= k < i ==> created[k] == VotingCode(start + k, id, false)
      {
        var codeId := table.FreshId();
        created := created + [VotingCode(codeId, id, false)];
        i := i + 1;
      }
      table.codes := table.codes + created;
      UnusedCodeCountAppend(old(table.codes), created, id);
      UnusedCodeCountOfFresh(created, id);
    }
  }

  /** A poll that is neither a codes poll nor has a closing time is never
      closed. */
  lemma OpenWithoutDeadlineOrCodes(p: Poll, table: CodeTable, now: int)
    requires p.duplicateVoteChecking != Codes && p.closesAt.None?
    ensures !p.Closed(now, table)
  {
  }

  /** Once the closing time is in the past the poll stays closed. */
  lemma StaysClosed(p: Poll, table: CodeTable, now: int, later: int)
    requires p.DeadlinePassed(now) && now <= later
    ensures p.Closed(later, table)
  {
  }

  /** A poll is closed exactly when its closing time is set and before now, or
      it is a codes poll none of whose codes is unused. */
  lemma ClosedIff(p: Poll, table: CodeTable, now: int)
    ensures p.Closed(now, table) <==>
              (p.closesAt.Some? && p.closesAt.value < now) ||
              (p.duplicateVoteChecking == Codes &&
               forall i :: 0 <= i < |table.codes| ==> !IsUnusedCodeOf(table.codes[i], p.id))
  {
    UnusedCodeCountZero(table.codes, p.id);
  }

  /** Results are visible whenever the hide flag is off, and once the poll is
      closed whatever the flag. */
  lemma ResultsVisibleWhen(p: Poll, table: CodeTable, now: int)
    ensures !p.hideResultsUntilClosed ==> p.ResultsVisible(now, table)
    ensures p.Closed(now, table) ==> p.ResultsVisible(now, table)
    ensures !p.Closed(now, table) ==> (p.ResultsVisible(now, table) <==> !p.hideResultsUntilClosed)
  {
  }

  /** Issuing at least one code to a codes poll whose deadline has not passed
      leaves it open, whatever the state of its earlier codes. */
  lemma IssuedCodesOpen(p: Poll, table: CodeTable, before: seq<VotingCode>, created: seq<VotingCode>, now: int)
    requires p.duplicateVoteChecking == Codes && !p.DeadlinePassed(now)
    requires |created| >= 1 && IsUnusedCodeOf(created[0], p.id)
    requires table.codes == before + created
    ensures !p.Closed(now, table)
  {
    UnusedCodeCountAppend(before, created, p.id);
    assert [created[0]] + created[1..] == created;
    UnusedCodeCountAppend([created[0]], created[1..], p.id);
    assert [created[0]][..0] == [];
  }
}
