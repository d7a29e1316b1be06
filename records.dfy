/** The rows the voting engine works on: options, votes and voting codes, and
    the two queries the engine runs over the voting-code table (count the
    unused codes of a poll, find a code by its id). */
module Records {

  datatype Option<+T> = None | Some(value: T)

  /** Poll ids are opaque strings (UUIDs in the application). */
  type PollId = string
  /** Option and code ids are opaque and unique; nat stands in for them. */
  type OptionId = nat
  type CodeId = nat

  /** The duplicate-vote-checking strategy: 'none', 'cookies' or 'codes'. */
  datatype Strategy = NoChecking | Cookies | Codes

  datatype PollOption = PollOption(id: OptionId, text: string)

  /** A vote row of a poll: the option it was cast for. */
  datatype PollVote = PollVote(optionId: OptionId)

  /** A row of the voting-code table, which holds the codes of every poll. */
  datatype VotingCode = VotingCode(id: CodeId, pollId: PollId, used: bool)

  /** Some option of the list carries the id. */
  predicate NamesOption(options: seq<PollOption>, optionId: OptionId) {
    exists i :: 0 <= i < |options| && options[i].id == optionId
  }

  /** No two options share an id (option ids are primary keys). */
  predicate DistinctOptionIds(options: seq<PollOption>) {
    forall i, j :: 0 <= i < j < |options| ==> options[i].id != options[j].id
  }

  /** Every vote names one of the options (vote rows refer to an option of
      their own poll). */
  predicate VotesNameOptions(options: seq<PollOption>, votes: seq<PollVote>) {
    forall k :: 0 <= k < |votes| ==> NamesOption(options, votes[k].optionId)
  }

  /** An option's vote_count: the votes cast for it. */
  function VoteCount(votes: seq<PollVote>, optionId: OptionId): (n: nat)
    ensures n <= |votes|
  {
    if votes == [] then 0
    else (if votes[0].optionId == optionId then 1 else 0) + VoteCount(votes[1..], optionId)
  }

  /** No two rows of the code table share an id. */
  predicate DistinctIds(codes: seq<VotingCode>) {
    forall i, j :: 0 <= i < j < |codes| ==> codes[i].id != codes[j].id
  }

  predicate IsUnusedCodeOf(c: VotingCode, pollId: PollId) {
    c.pollId == pollId && !c.used
  }

  /** The number of codes of the given poll whose used flag is false. */
  function UnusedCodeCount(codes: seq<VotingCode>, pollId: PollId): (n: nat)
    ensures n <= |codes|
  {
    if codes == [] then 0
    else UnusedCodeCount(codes[..|codes| - 1], pollId) + (if IsUnusedCodeOf(codes[|codes| - 1], pollId) then 1 else 0)
  }

  /** The count is zero exactly when no code of the poll is unused. */
  lemma {:induction false} UnusedCodeCountZero(codes: seq<VotingCode>, pollId: PollId)
    ensures UnusedCodeCount(codes, pollId) == 0 <==> forall i :: 0 <= i < |codes| ==> !IsUnusedCodeOf(codes[i], pollId)
  {
    if codes != [] {
      var init := codes[..|codes| - 1];
      UnusedCodeCountZero(init, pollId);
      assert forall i :: 0 <= i < |init| ==> init[i] == codes[i];
    }
  }

  /** Appending codes adds their own unused count. */
  lemma {:induction false} UnusedCodeCountAppend(codes: seq<VotingCode>, extra: seq<VotingCode>, pollId: PollId)
    ensures UnusedCodeCount(codes + extra, pollId) == UnusedCodeCount(codes, pollId) + UnusedCodeCount(extra, pollId)
  {
    if extra != [] {
      var init := extra[..|extra| - 1];
      assert (codes + extra)[..|codes + extra| - 1] == codes + init;
      assert (codes + extra)[|codes + extra| - 1] == extra[|extra| - 1];
      UnusedCodeCountAppend(codes, init, pollId);
    } else {
      assert codes + extra == codes;
    }
  }

  /** A batch of fresh codes of a poll adds exactly its size to that poll's count. */
  lemma {:induction false} UnusedCodeCountOfFresh(batch: seq<VotingCode>, pollId: PollId)
    requires forall i :: 0 <= i < |batch| ==> IsUnusedCodeOf(batch[i], pollId)
    ensures UnusedCodeCount(batch, pollId) == |batch|
  {
    if batch != [] {
      UnusedCodeCountOfFresh(batch[..|batch| - 1], pollId);
    }
  }

  /** The code table after setting the used flag of the row at index k. */
  function MarkUsed(codes: seq<VotingCode>, k: nat): seq<VotingCode>
    requires k < |codes|
  {
    codes[k := codes[k].(used := true)]
  }

  /** Using an unused code of a poll takes one off its count; using any other
      code leaves the count as it was. */
  lemma {:induction false} UnusedCodeCountMarkUsed(codes: seq<VotingCode>, k: nat, pollId: PollId)
    requires k < |codes|
    ensures IsUnusedCodeOf(codes[k], pollId) ==>
              UnusedCodeCount(MarkUsed(codes, k), pollId) == UnusedCodeCount(codes, pollId) - 1
    ensures !IsUnusedCodeOf(codes[k], pollId) ==>
              UnusedCodeCount(MarkUsed(codes, k), pollId) == UnusedCodeCount(codes, pollId)
  {
    var marked := MarkUsed(codes, k);
    var n := |codes| - 1;
    if k < n {
      UnusedCodeCountMarkUsed(codes[..n], k, pollId);
      assert marked[..n] == MarkUsed(codes[..n], k);
      assert marked[n] == codes[n];
    } else {
      assert marked[..n] == codes[..n];
    }
    assert UnusedCodeCount(marked, pollId) ==
             UnusedCodeCount(marked[..n], pollId) + (if IsUnusedCodeOf(marked[n], pollId) then 1 else 0);
    assert UnusedCodeCount(codes, pollId) ==
             UnusedCodeCount(codes[..n], pollId) + (if IsUnusedCodeOf(codes[n], pollId) then 1 else 0);
  }

  /** The lookup of a code by primary key over the whole table: the index of
      the row with the given id, if any. */
  function FindCode(codes: seq<VotingCode>, id: CodeId): (r: Option<nat>)
    ensures r.Some? ==> r.value < |codes| && codes[r.value].id == id
    ensures r.Some? ==> forall j :: 0 <= j < r.value ==> codes[j].id != id
    ensures r.None? <==> forall j :: 0 <= j < |codes| ==> codes[j].id != id
  {
    if codes == [] then None
    else if codes[0].id == id then Some(0)
    else match FindCode(codes[1..], id)
      case None => None
      case Some(k) => Some(k + 1)
  }

  /** Marking a row used changes no id, so every lookup finds the same row. */
  lemma FindCodeMarkUsed(codes: seq<VotingCode>, k: nat, id: CodeId)
    requires k < |codes|
    ensures FindCode(MarkUsed(codes, k), id) == FindCode(codes, id)
  {
    var marked := MarkUsed(codes, k);
    assert forall j :: 0 <= j < |codes| ==> marked[j].id == codes[j].id;
  }

  /** The controller's flip of a presented code: the row found by id gets its
      used flag set (the table is unchanged when no row has that id). */
  function UseCode(codes: seq<VotingCode>, id: CodeId): seq<VotingCode>
  {
    match FindCode(codes, id)
    case None => codes
    case Some(k) => MarkUsed(codes, k)
  }
}
