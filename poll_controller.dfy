/** The voting engine of PollController: the duplicate-vote check, vote
    casting with its all-or-nothing insertion, the admin password gate, the
    admin edits (extra codes, close now, settings) and the validation and
    construction of a new poll. */
module PollController {
  import opened Records
  import opened Polls

  /** The voter's session; only which keys it holds matters here. */
  class Session {
    var keys: set<PollId>

    constructor ()
      ensures keys == {}
    {
      keys := {};
    }
  }

  // ---------------------------------------------------------------- hasVoted

  /** As hasVoted is written: no code was found by the lookup over the whole
      table, or the one found is used. */
  predicate CodeUnusableAsWritten(codes: seq<VotingCode>, code: Option<CodeId>) {
    match code
    case None => true
    case Some(c) =>
      match FindCode(codes, c)
      case None => true
      case Some(k) => codes[k].used
  }

  /** hasVoted exactly as written: a 'codes' poll accepts any unused code of
      the table, whichever poll it was issued for. */
  predicate HasVotedAsWritten(poll: Poll, sessionKeys: set<PollId>, codes: seq<VotingCode>, code: Option<CodeId>) {
    match poll.duplicateVoteChecking
    case NoChecking => false
    case Cookies => poll.id in sessionKeys
    case Codes => CodeUnusableAsWritten(codes, code)
  }

  /** The presented code is missing, used, or issued for another poll. */
  predicate CodeUnusable(poll: Poll, codes: seq<VotingCode>, code: Option<CodeId>) {
    match code
    case None => true
    case Some(c) =>
      match FindCode(codes, c)
      case None => true
      case Some(k) => !IsUnusedCodeOf(codes[k], poll.id)
  }

  /** hasVoted as the engine uses it: identical to the source for 'none' and
      'cookies'; for 'codes' a code issued for another poll counts as missing. */
  predicate HasVoted(poll: Poll, sessionKeys: set<PollId>, codes: seq<VotingCode>, code: Option<CodeId>) {
    match poll.duplicateVoteChecking
    case NoChecking => false
    case Cookies => poll.id in sessionKeys
    case Codes => CodeUnusable(poll, codes, code)
  }

  /** hasVoted per strategy: 'none' never blocks, 'cookies' blocks iff the
      session holds the poll's id, 'codes' blocks unless the presented code is
      an unused code of this poll. */
  lemma HasVotedByStrategy(poll: Poll, sessionKeys: set<PollId>, codes: seq<VotingCode>, code: Option<CodeId>)
    requires DistinctIds(codes)
    ensures poll.duplicateVoteChecking == NoChecking ==> !HasVoted(poll, sessionKeys, codes, code)
    ensures poll.duplicateVoteChecking == Cookies ==>
              (HasVoted(poll, sessionKeys, codes, code) <==> poll.id in sessionKeys)
    ensures poll.duplicateVoteChecking == Codes ==>
              (!HasVoted(poll, sessionKeys, codes, code) <==>
                 code.Some? && exists k :: 0 <= k < |codes| && codes[k].id == code.value && IsUnusedCodeOf(codes[k], poll.id))
  {
    if poll.duplicateVoteChecking == Codes && code.Some? {
      var c := code.value;
      if k :| 0 <= k < |codes| && codes[k].id == c && IsUnusedCodeOf(codes[k], poll.id) {
        var f := FindCode(codes, c);
        assert f.Some?;
        assert codes[f.value].id == codes[k].id;
      }
    }
  }

  /** hasVoted as written, per strategy: 'none' never blocks, 'cookies' blocks
      iff the session holds the poll's id, 'codes' blocks iff no row has the
      presented id or that row is used, whatever poll the row belongs to. */
  lemma HasVotedAsWrittenByStrategy(poll: Poll, sessionKeys: set<PollId>, codes: seq<VotingCode>, code: Option<CodeId>)
    requires DistinctIds(codes)
    ensures poll.duplicateVoteChecking == NoChecking ==> !HasVotedAsWritten(poll, sessionKeys, codes, code)
    ensures poll.duplicateVoteChecking == Cookies ==>
              (HasVotedAsWritten(poll, sessionKeys, codes, code) <==> poll.id in sessionKeys)
    ensures poll.duplicateVoteChecking == Codes ==>
              (!HasVotedAsWritten(poll, sessionKeys, codes, code) <==>
                 code.Some? && exists k :: 0 <= k < |codes| && codes[k].id == code.value && !codes[k].used)
  {
    if poll.duplicateVoteChecking == Codes && code.Some? {
      var c := code.value;
      if k :| 0 <= k < |codes| && codes[k].id == c && !codes[k].used {
        var f := FindCode(codes, c);
        assert f.Some?;
        assert codes[f.value].id == codes[k].id;
      }
    }
  }

  /** The discrepancy: an unused code issued for another poll is admitted by
      hasVoted as written, and spending it leaves this poll's unused count as it
      was, so the poll's own codes no longer bound its number of votes. */
  lemma ForeignCodeAdmitted(poll: Poll, other: PollId, c: CodeId)
    requires poll.duplicateVoteChecking == Codes && other != poll.id
    ensures var codes := [VotingCode(c, other, false)];
            !HasVotedAsWritten(poll, {}, codes, Some(c)) &&
            HasVoted(poll, {}, codes, Some(c)) &&
            UnusedCodeCount(UseCode(codes, c), poll.id) == UnusedCodeCount(codes, poll.id)
  {
    var codes := [VotingCode(c, other, false)];
    assert FindCode(codes, c) == Some(0);
    UnusedCodeCountMarkUsed(codes, 0, poll.id);
  }

  /** The intended property, proved of the corrected check: a code vote that
      is admitted spends exactly one of this poll's own unused codes. */
  lemma AdmittedCodeIsOwn(poll: Poll, sessionKeys: set<PollId>, codes: seq<VotingCode>, c: CodeId)
    requires poll.duplicateVoteChecking == Codes
    requires !HasVoted(poll, sessionKeys, codes, Some(c))
    ensures UnusedCodeCount(codes, poll.id) >= 1
    ensures UnusedCodeCount(UseCode(codes, c), poll.id) == UnusedCodeCount(codes, poll.id) - 1
  {
    var k := FindCode(codes, c).value;
    UnusedCodeCountMarkUsed(codes, k, poll.id);
  }

  /** Recording the marker of a successful vote makes hasVoted true for the
      same credential: the poll's id in the session for 'cookies', the spent
      code for 'codes'. */
  lemma MarkerBlocksRepeat(poll: Poll, sessionKeys: set<PollId>, codes: seq<VotingCode>, code: Option<CodeId>)
    requires !HasVoted(poll, sessionKeys, codes, code)
    ensures poll.duplicateVoteChecking == Cookies ==>
              HasVoted(poll, sessionKeys + {poll.id}, codes, code)
    ensures poll.duplicateVoteChecking == Codes ==>
              code.Some? && HasVoted(poll, sessionKeys, UseCode(codes, code.value), code)
  {
    if poll.duplicateVoteChecking == Codes {
      var c := code.value;
      var k := FindCode(codes, c).value;
      FindCodeMarkUsed(codes, k, c);
    }
  }

  // -------------------------------------------------------------------- vote

  datatype VoteOutcome = PollClosed | AlreadyVoted | InvalidSelection | UnknownOption | Voted

  predicate Distinct<T(==)>(s: seq<T>) {
    forall i, j :: 0 <= i < j < |s| ==> s[i] != s[j]
  }

  /** The validation of the submitted options as it behaves: present and
      non-empty, and exactly one when the poll allows a single answer. The
      'distinct' rule names the array attribute rather than its entries, so
      in Laravel it matches no entry and compares nothing. */
  predicate SelectionValidAsWritten(allowMultipleAnswers: bool, selected: seq<OptionId>) {
    |selected| >= 1 && (allowMultipleAnswers || |selected| == 1)
  }

  /** The validation of the submitted options as intended: present and
      non-empty, no duplicates, and exactly one when the poll allows a single
      answer. The engine uses this one. */
  predicate SelectionValid(allowMultipleAnswers: bool, selected: seq<OptionId>) {
    |selected| >= 1 && Distinct(selected) && (allowMultipleAnswers || |selected| == 1)
  }

  /** One vote row per submitted option, in submission order. */
  function VotesFor(selected: seq<OptionId>): seq<PollVote> {
    seq(|selected|, k requires 0 <= k < |selected| => PollVote(selected[k]))
  }

  /** The discrepancy: on a poll with multiple answers, a ballot naming the
      same option twice passes the rule as it behaves, though not the
      intended rule, and it casts two votes for that option at once. */
  lemma DuplicateSelectionAdmitted(o: OptionId)
    ensures SelectionValidAsWritten(true, [o, o])
    ensures !SelectionValid(true, [o, o])
    ensures VoteCount(VotesFor([o, o]), o) == 2
  {
    assert VotesFor([o, o]) == [PollVote(o), PollVote(o)];
    assert VotesFor([o, o])[1..] == [PollVote(o)];
    assert [o, o][0] == [o, o][1];
  }

  /** The intended property, proved of the corrected rule: a ballot without
      duplicates casts exactly one vote for each option it names and none for
      any other. */
  lemma {:induction false} DistinctBallotCounts(selected: seq<OptionId>)
    requires Distinct(selected)
    ensures forall o :: VoteCount(VotesFor(selected), o) == if o in selected then 1 else 0
  {
    if selected != [] {
      var rest := selected[1..];
      assert Distinct(rest) by {
        forall i, j | 0 <= i < j < |rest| ensures rest[i] != rest[j] {
          assert rest[i] == selected[i + 1] && rest[j] == selected[j + 1];
        }
      }
      DistinctBallotCounts(rest);
      assert VotesFor(selected)[1..] == VotesFor(rest);
      assert selected[0] !in rest by {
        forall j | 0 <= j < |rest| ensures rest[j] != selected[0] {
          assert rest[j] == selected[j + 1];
        }
      }
      forall o ensures o in selected <==> o == selected[0] || o in rest {
        assert selected == [selected[0]] + rest;
      }
    }
  }

  /** vote: closed? then already voted? then option validation, then one vote
      per option inside a transaction that is rolled back on the first option
      that is not the poll's, then the duplicate-vote marker. */
  method Vote(poll: Poll, table: CodeTable, session: Session, now: int,
              selected: seq<OptionId>, code: Option<CodeId>) returns (outcome: VoteOutcome)
    requires table.Valid() && poll.Valid()
    modifies poll`votes, table`codes, session
    ensures table.Valid() && poll.Valid()
    ensures outcome == PollClosed <==> old(poll.Closed(now, table))
    ensures outcome == AlreadyVoted <==>
              !old(poll.Closed(now, table)) && old(HasVoted(poll, session.keys, table.codes, code))
    ensures outcome == InvalidSelection <==>
              !old(poll.Closed(now, table)) && !old(HasVoted(poll, session.keys, table.codes, code)) &&
              !SelectionValid(poll.allowMultipleAnswers, selected)
    ensures outcome == UnknownOption <==>
              !old(poll.Closed(now, table)) && !old(HasVoted(poll, session.keys, table.codes, code)) &&
              SelectionValid(poll.allowMultipleAnswers, selected) &&
              exists k :: 0 <= k < |selected| && !poll.HasOption(selected[k])
    ensures outcome != Voted ==>
              poll.votes == old(poll.votes) && table.codes == old(table.codes) && session.keys == old(session.keys)
    ensures outcome == Voted ==> poll.votes == old(poll.votes) + VotesFor(selected)
    ensures outcome == Voted && poll.duplicateVoteChecking == NoChecking ==>
              table.codes == old(table.codes) && session.keys == old(session.keys)
    ensures outcome == Voted && poll.duplicateVoteChecking == Cookies ==>
              table.codes == old(table.codes) && session.keys == old(session.keys) + {poll.id}
    ensures outcome == Voted && poll.duplicateVoteChecking == Codes ==>
              code.Some? && table.codes == UseCode(old(table.codes), code.value) &&
              session.keys == old(session.keys) &&
              poll.UnusedCodes(table) == old(poll.UnusedCodes(table)) - 1
    ensures outcome == Voted && poll.duplicateVoteChecking != NoChecking ==>
              HasVoted(poll, session.keys, table.codes, code)
  {
    if poll.Closed(now, table) {
      return PollClosed;
    }
    if HasVoted(poll, session.keys, table.codes, code) {
      return AlreadyVoted;
    }
    if !SelectionValid(poll.allowMultipleAnswers, selected) {
      return InvalidSelection;
    }
    // the transaction begins
    var saved := poll.votes;
    for i := 0 to |selected|
      invariant poll.votes == saved + VotesFor(selected[..i])
      invariant forall k :: 0 <= k < i ==> poll.HasOption(selected[k])
      invariant table.codes == old(table.codes) && session.keys == old(session.keys)
      invariant poll.Valid()
    {
      if !poll.HasOption(selected[i]) {
        // roll back the votes added so far
        poll.votes := saved;
        return UnknownOption;
      }
      assert VotesFor(selected[..i + 1]) == VotesFor(selected[..i]) + [PollVote(selected[i])];
      poll.votes := poll.votes + [PollVote(selected[i])];
    }
    assert selected[..|selected|] == selected;
    MarkerBlocksRepeat(poll, session.keys, table.codes, code);
    match poll.duplicateVoteChecking {
      case NoChecking =>
      case Cookies =>
        session.keys := session.keys + {poll.id};
      case Codes =>
        AdmittedCodeIsOwn(poll, session.keys, table.codes, code.value);
        table.codes := UseCode(table.codes, code.value);
    }
    // commit
    outcome := Voted;
  }

  // ------------------------------------------------------- admin and edit

  /** The password gate of admin and edit. Access is refused when no admin
      password is stored (PHP's `== null` also holds for the empty string) or
      the presented password differs from it. */
  predicate Authorized(poll: Poll, presented: Option<string>)
    reads poll
  {
    !(poll.adminPassword.None? || poll.adminPassword == Some("") || presented != poll.adminPassword)
  }

  /** Access needs a non-empty stored password and the same password presented. */
  lemma AuthorizedIff(poll: Poll, presented: Option<string>)
    ensures Authorized(poll, presented) <==>
              presented.Some? && presented.value != "" && poll.adminPassword == presented
  {
  }

  /** The settings form of edit. */
  datatype SettingsForm = SettingsForm(
    hideResultsUntilClosed: bool,
    automaticallyClosePoll: bool,
    closeAt: Option<int>,
    setAdminPassword: bool,
    adminPassword: Option<string>)

  /** The closing time is required when automatic closing is asked for, and
      when given it must lie strictly after now. */
  predicate CloseTimeValid(automaticallyClosePoll: bool, closeAt: Option<int>, now: int) {
    (automaticallyClosePoll ==> closeAt.Some?) && (closeAt.Some? ==> closeAt.value > now)
  }

  /** The admin password is required (non-empty) when setting one is asked for. */
  predicate PasswordValid(setAdminPassword: bool, adminPassword: Option<string>) {
    setAdminPassword ==> adminPassword.Some? && adminPassword.value != ""
  }

  predicate SettingsValid(form: SettingsForm, now: int) {
    CloseTimeValid(form.automaticallyClosePoll, form.closeAt, now) &&
    PasswordValid(form.setAdminPassword, form.adminPassword)
  }

  /** What an edit request asks for: extra codes, close now, or new settings. */
  datatype EditRequest = ExtraCodes(count: int) | CloseNow | ChangeSettings(form: SettingsForm)

  datatype EditOutcome = Unauthorized | NotCodesPoll | InvalidInput | CodesIssued | ClosedNow | SettingsSaved

  /** edit: the password gate, then the request's branch. */
  method Edit(poll: Poll, table: CodeTable, presented: Option<string>, request: EditRequest, now: int)
    returns (outcome: EditOutcome, created: seq<VotingCode>)
    requires table.Valid() && poll.Valid()
    modifies poll`hideResultsUntilClosed, poll`closesAt, poll`adminPassword, table
    ensures table.Valid() && poll.Valid()
    ensures outcome == Unauthorized <==> !old(Authorized(poll, presented))
    ensures outcome == NotCodesPoll <==>
              old(Authorized(poll, presented)) && request.ExtraCodes? && poll.duplicateVoteChecking != Codes
    ensures outcome == InvalidInput <==>
              old(Authorized(poll, presented)) &&
              ((request.ExtraCodes? && poll.duplicateVoteChecking == Codes && request.count < 1) ||
               (request.ChangeSettings? && !SettingsValid(request.form, now)))
    ensures outcome in {Unauthorized, NotCodesPoll, InvalidInput} ==>
              created == [] && table.codes == old(table.codes) &&
              poll.hideResultsUntilClosed == old(poll.hideResultsUntilClosed) &&
              poll.closesAt == old(poll.closesAt) && poll.adminPassword == old(poll.adminPassword)
    ensures outcome == CodesIssued ==>
              request.ExtraCodes? && |created| == request.count && table.codes == old(table.codes) + created &&
              (forall k :: 0 <= k < |created| ==> IsUnusedCodeOf(created[k], poll.id)) &&
              poll.UnusedCodes(table) == old(poll.UnusedCodes(table)) + request.count &&
              poll.hideResultsUntilClosed == old(poll.hideResultsUntilClosed) &&
              poll.closesAt == old(poll.closesAt) && poll.adminPassword == old(poll.adminPassword)
    ensures outcome == ClosedNow <==> old(Authorized(poll, presented)) && request.CloseNow?
    ensures outcome == ClosedNow ==>
              poll.closesAt == Some(now) && created == [] && table.codes == old(table.codes) &&
              poll.hideResultsUntilClosed == old(poll.hideResultsUntilClosed) &&
              poll.adminPassword == old(poll.adminPassword)
    ensures outcome == SettingsSaved ==>
              request.ChangeSettings? && created == [] && table.codes == old(table.codes) &&
              poll.hideResultsUntilClosed == request.form.hideResultsUntilClosed &&
              poll.closesAt == (if request.form.automaticallyClosePoll then request.form.closeAt else None) &&
              poll.adminPassword == (if request.form.setAdminPassword then request.form.adminPassword else None)
  {
    created := [];
    if !Authorized(poll, presented) {
      return Unauthorized, [];
    }
    match request {
      case ExtraCodes(count) =>
        if poll.duplicateVoteChecking != Codes {
          return NotCodesPoll, [];
        }
        if count < 1 {
          return InvalidInput, [];
        }
        created := poll.CreateVotingCodes(count, table);
        outcome := CodesIssued;
      case CloseNow =>
        poll.closesAt := Some(now);
        outcome := ClosedNow;
      case ChangeSettings(form) =>
        if !SettingsValid(form, now) {
          return InvalidInput, [];
        }
        poll.hideResultsUntilClosed := form.hideResultsUntilClosed;
        poll.closesAt := if form.automaticallyClosePoll then form.closeAt else None;
        poll.adminPassword := if form.setAdminPassword then form.adminPassword else None;
        outcome := SettingsSaved;
    }
  }

  /** Closing now sets the closing time to the present, so the poll is closed
      at every later instant (Carbon's isPast is strict, so not yet at now). */
  lemma ClosedAfterCloseNow(p: Poll, table: CodeTable, now: int, later: int)
    requires p.closesAt == Some(now) && now < later
    ensures p.Closed(later, table)
    ensures !p.DeadlinePassed(now)
  {
  }

  // ------------------------------------------------------------ create

  /** The creation form, as typed values (checkboxes already read as flags). */
  datatype CreateForm = CreateForm(
    question: string,
    options: seq<Option<string>>,
    allowMultipleAnswers: bool,
    hideResultsUntilClosed: bool,
    automaticallyClosePoll: bool,
    closeAt: Option<int>,
    setAdminPassword: bool,
    adminPassword: Option<string>,
    duplicateVoteChecking: Strategy,
    numberOfCodes: Option<int>)

  /** The submitted options with the empty (null) entries dropped, in order. */
  function PresentOptions(options: seq<Option<string>>): (texts: seq<string>)
    ensures |texts| <= |options|
    ensures forall t :: t in texts <==> Some(t) in options
    ensures forall t :: multiset(texts)[t] == multiset(options)[Some(t)]
  {
    if options == [] then []
    else
      var rest := PresentOptions(options[1..]);
      assert options == [options[0]] + options[1..];
      assert forall t :: Some(t) in options <==> options[0] == Some(t) || Some(t) in options[1..];
      match options[0]
      case None => rest
      case Some(t) => [t] + rest
  }

  /** The validation rules of create as they behave: as CreateFormValid,
      except that 'distinct' on the options array compares nothing. */
  predicate CreateFormValidAsWritten(form: CreateForm, now: int) {
    form.question != "" &&
    |PresentOptions(form.options)| >= 2 &&
    CloseTimeValid(form.automaticallyClosePoll, form.closeAt, now) &&
    PasswordValid(form.setAdminPassword, form.adminPassword) &&
    (form.duplicateVoteChecking == Codes ==> form.numberOfCodes.Some?) &&
    (form.numberOfCodes.Some? ==> form.numberOfCodes.value >= 2)
  }

  /** The discrepancy at create: a form whose two options have the same text
      passes the rules as they behave, though not the intended rules. */
  lemma DuplicateTextsAdmitted(text: string, now: int)
    requires text != ""
    ensures var form := CreateForm(text, [Some(text), Some(text)], false, false, false, None,
                                   false, None, NoChecking, None);
            CreateFormValidAsWritten(form, now) && !CreateFormValid(form, now)
  {
    var texts := PresentOptions([Some(text), Some(text)]);
    assert texts == [text, text];
    assert texts[0] == texts[1];
  }

  /** The intended rules differ from the rules as they behave only by the
      distinctness of the filled-in option texts. */
  lemma CreateFormValidIff(form: CreateForm, now: int)
    ensures CreateFormValid(form, now) <==>
              CreateFormValidAsWritten(form, now) && Distinct(PresentOptions(form.options))
  {
  }

  /** The validation rules of create as intended (the engine uses these). */
  predicate CreateFormValid(form: CreateForm, now: int) {
    form.question != "" &&
    |PresentOptions(form.options)| >= 2 && Distinct(PresentOptions(form.options)) &&
    CloseTimeValid(form.automaticallyClosePoll, form.closeAt, now) &&
    PasswordValid(form.setAdminPassword, form.adminPassword) &&
    (form.duplicateVoteChecking == Codes ==> form.numberOfCodes.Some?) &&
    (form.numberOfCodes.Some? ==> form.numberOfCodes.value >= 2)
  }

  /** create: validate, save the poll under a fresh id, add the options in
      order under fresh ids, and issue the codes of a 'codes' poll. A poll that
      passes validation starts open. */
  method CreatePoll(form: CreateForm, now: int, id: PollId, firstOptionId: OptionId, table: CodeTable)
    returns (poll: Poll?, codes: seq<VotingCode>)
    requires table.Valid()
    modifies table
    ensures table.Valid()
    ensures poll == null <==> !CreateFormValid(form, now)
    ensures poll == null ==> codes == [] && table.codes == old(table.codes)
    ensures poll != null ==>
              fresh(poll) && poll.id == id && poll.question == form.question &&
              poll.duplicateVoteChecking == form.duplicateVoteChecking &&
              poll.allowMultipleAnswers == form.allowMultipleAnswers &&
              poll.hideResultsUntilClosed == form.hideResultsUntilClosed &&
              poll.closesAt == (if form.automaticallyClosePoll then form.closeAt else None) &&
              poll.adminPassword == (if form.setAdminPassword then form.adminPassword else None) &&
              poll.votes == [] && poll.Valid() &&
              |poll.options| == |PresentOptions(form.options)| &&
              (forall k :: 0 <= k < |poll.options| ==>
                 poll.options[k] == PollOption(firstOptionId + k, PresentOptions(form.options)[k])) &&
              table.codes == old(table.codes) + codes &&
              (forall k :: 0 <= k < |codes| ==> IsUnusedCodeOf(codes[k], id)) &&
              |codes| == (if form.duplicateVoteChecking == Codes then form.numberOfCodes.value else 0) &&
              !poll.Closed(now, table)
  {
    codes := [];
    if !CreateFormValid(form, now) {
      return null, [];
    }
    var p := new Poll(id, form.question, form.duplicateVoteChecking, form.allowMultipleAnswers,
                      form.hideResultsUntilClosed,
                      if form.automaticallyClosePoll then form.closeAt else None,
                      if form.setAdminPassword then form.adminPassword else None);
    var texts := PresentOptions(form.options);
    var options: seq<PollOption> := [];
    for k := 0 to |texts|
      invariant |options| == k
      invariant forall j :: 0 <= j < k ==> options[j] == PollOption(firstOptionId + j, texts[j])
    {
      options := options + [PollOption(firstOptionId + k, texts[k])];
    }
    p.options := options;
    if p.duplicateVoteChecking == Codes {
      codes := p.CreateVotingCodes(form.numberOfCodes.value, table);
      IssuedCodesOpen(p, table, old(table.codes), codes, now);
    }
    poll := p;
  }
}
