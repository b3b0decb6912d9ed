/** The registration tab (script.py:521-558): the guard that closes the form
    once the event is full, and the submit handler that validates the form,
    re-checks the capacity and inserts the registration. */
module Submission {
  import opened Text
  import opened Validation
  import opened Sheets
  import opened Storage

  /** `MAX_PARTICIPANTS`. */
  const MaxParticipants: nat := 20

  const CapacityReached := "Les inscriptions sont maintenant complètes."

  /** The five messages the handler can list are pairwise different. */
  lemma MessagesDistinct()
    ensures NameInvalid != MemberRequired && NameInvalid != MemberFormatInvalid
    ensures NameInvalid != FeeNotAcknowledged && NameInvalid != CapacityReached
    ensures MemberRequired != MemberFormatInvalid && MemberRequired != FeeNotAcknowledged
    ensures MemberRequired != CapacityReached
    ensures MemberFormatInvalid != FeeNotAcknowledged && MemberFormatInvalid != CapacityReached
    ensures FeeNotAcknowledged != CapacityReached
  {
  }

  /** The place of a message in the order the handler lists them: name,
      member number, fee, capacity. */
  function Rank(message: string): nat
  {
    if message == NameInvalid then 0
    else if message == MemberRequired || message == MemberFormatInvalid then 1
    else if message == FeeNotAcknowledged then 2
    else 3
  }

  /** The errors the handler lists for a form, given the registration count
      it reads: the three validators' messages in order, then the capacity
      message when the count has reached the maximum. */
  function SubmissionErrors(name: string, member: string, fee: bool, count: nat): (errors: seq<string>)
    ensures errors == [] <==>
            |Trim(name)| >= 3 && ValidateMemberNumber(member) == [] && fee && count < MaxParticipants
    ensures count >= MaxParticipants ==> errors != [] && errors[|errors| - 1] == CapacityReached
  {
    ValidateFullName(name) + ValidateMemberNumber(member) + ValidateFeeAck(fee)
    + (if count >= MaxParticipants then [CapacityReached] else [])
  }

  /** Each message is listed exactly when its condition holds. */
  lemma SubmissionErrorsListed(name: string, member: string, fee: bool, count: nat)
    ensures var errors := SubmissionErrors(name, member, fee, count);
            (NameInvalid in errors <==> |Trim(name)| < 3)
            && (MemberRequired in errors <==> member == [])
            && (MemberFormatInvalid in errors <==> member != [] && !MemberPattern(Trim(member)))
            && (FeeNotAcknowledged in errors <==> !fee)
            && (CapacityReached in errors <==> count >= MaxParticipants)
  {
    MessagesDistinct();
  }

  /** The messages come in the order name, member number, fee, capacity,
      each at most once. */
  lemma SubmissionErrorsOrdered(name: string, member: string, fee: bool, count: nat)
    ensures var errors := SubmissionErrors(name, member, fee, count);
            forall i, j :: 0 <= i < j < |errors| ==> Rank(errors[i]) < Rank(errors[j])
  {
    MessagesDistinct();
  }

  /** What the handler shows: the list of errors, the success message, or the
      message the store refused the registration with. */
  datatype SubmitOutcome = Rejected(errors: seq<string>) | Registered | NotRegistered(message: string)

  /** The handler's answer on a sheet holding `values`. */
  function SubmitResult(values: seq<Row>, name: string, member: string, fee: bool): SubmitOutcome
  {
    var errors := SubmissionErrors(name, member, fee, Count(values));
    if errors != [] then Rejected(errors)
    else match InsertDecision(values, Trim(member))
      case Inserted => Registered
      case Refused(message) => NotRegistered(message)
  }

  /** The sheet after the handler: unchanged unless the form is valid, in
      which case the trimmed fields go to the store. */
  function Submitted(values: seq<Row>, name: string, member: string, fee: bool, timestamp: string): seq<Row>
  {
    if SubmissionErrors(name, member, fee, Count(values)) != [] then values
    else AfterInsert(values, Trim(name), Trim(member), fee, timestamp)
  }

  /** The `if submit:` block. */
  method Submit(ws: Worksheet, name: string, member: string, fee: bool, timestamp: string)
    returns (outcome: SubmitOutcome)
    modifies ws
    ensures outcome == SubmitResult(old(ws.rows), name, member, fee)
    ensures ws.rows == Submitted(old(ws.rows), name, member, fee, timestamp)
  {
    var errors := ValidateFullName(name) + ValidateMemberNumber(member) + ValidateFeeAck(fee);
    var count := CountRegistrations(ws);
    if count >= MaxParticipants {
      errors := errors + [CapacityReached];
    }
    if errors != [] {
      return Rejected(errors);
    }
    var result := InsertRegistration(ws, Trim(name), Trim(member), fee, timestamp);
    match result
    case Inserted =>
      outcome := Registered;
    case Refused(message) =>
      outcome := NotRegistered(message);
  }

  /** What the tab ends up showing: closed, the open form with its count of
      places left, or the handler's answer. */
  datatype TabOutcome = Closed | FormShown(remaining: int) | Answered(outcome: SubmitOutcome)

  /** `MAX_PARTICIPANTS - count_registrations()`. */
  function Remaining(values: seq<Row>): (remaining: int)
    ensures remaining <= MaxParticipants
    ensures remaining > 0 <==> Count(values) < MaxParticipants
  {
    MaxParticipants - Count(values)
  }

  /** The tab's answer: closed when no place is left, otherwise the form,
      and the handler's answer once it is submitted. */
  function TabResult(values: seq<Row>, submit: bool, name: string, member: string, fee: bool): TabOutcome
  {
    if Remaining(values) <= 0 then Closed
    else if !submit then FormShown(Remaining(values))
    else Answered(SubmitResult(values, name, member, fee))
  }

  /** The sheet after the tab has run. */
  function TabAfter(values: seq<Row>, submit: bool, name: string, member: string, fee: bool, timestamp: string): seq<Row>
  {
    if Remaining(values) <= 0 || !submit then values
    else Submitted(values, name, member, fee, timestamp)
  }

  /** The registration tab, from its place count to the handler. */
  method RegistrationTab(ws: Worksheet, submit: bool, name: string, member: string, fee: bool, timestamp: string)
    returns (shown: TabOutcome)
    modifies ws
    ensures shown == TabResult(old(ws.rows), submit, name, member, fee)
    ensures ws.rows == TabAfter(old(ws.rows), submit, name, member, fee, timestamp)
  {
    var count := CountRegistrations(ws);
    var remaining := MaxParticipants - count;
    if remaining <= 0 {
      return Closed;
    }
    if !submit {
      return FormShown(remaining);
    }
    var outcome := Submit(ws, name, member, fee, timestamp);
    shown := Answered(outcome);
  }

  // ------------------------------------------------------------ lemmas

  /** Handing the store the trimmed fields is the same as handing it the raw
      ones: it trims them again. */
  lemma TrimmedFieldsStoreTheSame(values: seq<Row>, name: string, member: string, fee: bool, timestamp: string)
    ensures InsertDecision(values, Trim(member)) == InsertDecision(values, member)
    ensures AfterInsert(values, Trim(name), Trim(member), fee, timestamp) == AfterInsert(values, name, member, fee, timestamp)
  {
    TrimIdempotent(name);
    TrimIdempotent(member);
  }

  /** The handler registers exactly when the form is valid, the sheet has a
      free place and the store accepts the member number; then one row is
      appended, holding the trimmed name and number, the fee flag `1` and
      the timestamp. */
  lemma RegisteredIff(values: seq<Row>, name: string, member: string, fee: bool, timestamp: string)
    ensures SubmitResult(values, name, member, fee) == Registered <==>
            |Trim(name)| >= 3 && ValidateMemberNumber(member) == [] && fee
            && Count(values) < MaxParticipants && InsertDecision(values, member) == Inserted
    ensures SubmitResult(values, name, member, fee) == Registered ==>
            Submitted(values, name, member, fee, timestamp)
            == values + [[Trim(name), Trim(member), "1", timestamp]]
  {
    TrimmedFieldsStoreTheSame(values, name, member, fee, timestamp);
  }

  /** A registered row holds a name of at least three characters, a member
      number that matches the pattern and the fee flag `1`. */
  lemma RegisteredRowValid(values: seq<Row>, name: string, member: string, fee: bool, timestamp: string)
    requires SubmitResult(values, name, member, fee) == Registered
    ensures var after := Submitted(values, name, member, fee, timestamp);
            var row := after[|after| - 1];
            |after| == |values| + 1 && |row| == 4
            && |row[0]| >= 3 && Trim(row[0]) == row[0]
            && MemberPattern(row[1]) && Trim(row[1]) == row[1]
            && row[2] == "1"
  {
    RegisteredIff(values, name, member, fee, timestamp);
    TrimIdempotent(name);
    TrimIdempotent(member);
  }

  /** Any other answer leaves the sheet unchanged. */
  lemma UnchangedUnlessRegistered(values: seq<Row>, name: string, member: string, fee: bool, timestamp: string)
    requires SubmitResult(values, name, member, fee) != Registered
    ensures Submitted(values, name, member, fee, timestamp) == values
  {
  }

  /** On a full sheet the handler refuses, ending its list with the capacity
      message, and leaves the sheet unchanged. */
  lemma FullSheetRejects(values: seq<Row>, name: string, member: string, fee: bool, timestamp: string)
    requires Count(values) >= MaxParticipants
    ensures SubmitResult(values, name, member, fee).Rejected?
    ensures var errors := SubmitResult(values, name, member, fee).errors;
            errors != [] && errors[|errors| - 1] == CapacityReached
    ensures Submitted(values, name, member, fee, timestamp) == values
  {
  }

  /** The handler never takes the count past the maximum. */
  lemma SubmitKeepsCapacity(values: seq<Row>, name: string, member: string, fee: bool, timestamp: string)
    requires Count(values) <= MaxParticipants
    ensures Count(Submitted(values, name, member, fee, timestamp)) <= MaxParticipants
  {
    if SubmissionErrors(name, member, fee, Count(values)) == [] && values != [] {
      InsertAppendsOneRow(values, Trim(name), Trim(member), fee, timestamp);
    }
  }

  /** The handler keeps a consistent sheet consistent. */
  lemma SubmitKeepsConsistent(values: seq<Row>, name: string, member: string, fee: bool, timestamp: string)
    requires Consistent(values)
    ensures Consistent(Submitted(values, name, member, fee, timestamp))
  {
    InsertKeepsConsistent(values, Trim(name), Trim(member), fee, timestamp);
  }

  /** The tab answers `Closed` exactly when the count has reached the
      maximum, and then changes nothing. */
  lemma ClosedIff(values: seq<Row>, submit: bool, name: string, member: string, fee: bool, timestamp: string)
    ensures TabResult(values, submit, name, member, fee) == Closed <==> Count(values) >= MaxParticipants
    ensures Count(values) >= MaxParticipants ==> TabAfter(values, submit, name, member, fee, timestamp) == values
  {
  }

  // ------------------------------------------------------ runs of the app

  /** One event the store sees: the app starting, a submitted registration
      form, or an administrator deleting a member number. */
  datatype Action =
    | Start
    | Register(name: string, member: string, fee: bool, timestamp: string)
    | Remove(member: string)

  /** The sheet after one action. */
  function Apply(values: seq<Row>, action: Action): seq<Row>
  {
    match action
    case Start => InitializedAsWritten(values)
    case Register(name, member, fee, timestamp) => TabAfter(values, true, name, member, fee, timestamp)
    case Remove(member) => Deleted(values, member)
  }

  /** The sheet after a run of actions, first to last. */
  function Run(values: seq<Row>, actions: seq<Action>): seq<Row>
    decreases |actions|
  {
    if actions == [] then values else Run(Apply(values, actions[0]), actions[1..])
  }

  /** A delete never adds registrations. */
  lemma DeleteNeverAdds(values: seq<Row>, member: string)
    ensures Count(Deleted(values, member)) <= Count(values)
  {
    if |values| > 1 {
      DeletedShape(values, member);
    }
  }

  /** One action keeps the count within the maximum. */
  lemma ApplyKeepsCapacity(values: seq<Row>, action: Action)
    requires Count(values) <= MaxParticipants
    ensures Count(Apply(values, action)) <= MaxParticipants
  {
    match action
    case Start => InitKeepsCount(values);
    case Register(name, member, fee, timestamp) =>
      if Remaining(values) > 0 {
        SubmitKeepsCapacity(values, name, member, fee, timestamp);
      }
    case Remove(member) => DeleteNeverAdds(values, member);
  }

  /** One action keeps a consistent sheet consistent. */
  lemma ApplyKeepsConsistent(values: seq<Row>, action: Action)
    requires Consistent(values)
    ensures Consistent(Apply(values, action))
  {
    match action
    case Start => InitVersionsAgree(values);
    case Register(name, member, fee, timestamp) =>
      if Remaining(values) > 0 {
        SubmitKeepsConsistent(values, name, member, fee, timestamp);
      }
    case Remove(member) => DeleteKeepsConsistent(values, member);
  }

  /** However many forms are submitted, the count starting within the
      maximum never exceeds it. */
  lemma {:induction false} RunKeepsCapacity(values: seq<Row>, actions: seq<Action>)
    requires Count(values) <= MaxParticipants
    ensures Count(Run(values, actions)) <= MaxParticipants
    decreases |actions|
  {
    if actions != [] {
      ApplyKeepsCapacity(values, actions[0]);
      RunKeepsCapacity(Apply(values, actions[0]), actions[1..]);
    }
  }

  /** From the first start on, the sheet stays consistent: the header row
      first and no member number twice. */
  lemma {:induction false} RunKeepsConsistent(values: seq<Row>, actions: seq<Action>)
    requires Consistent(values)
    ensures Consistent(Run(values, actions))
    decreases |actions|
  {
    if actions != [] {
      ApplyKeepsConsistent(values, actions[0]);
      RunKeepsConsistent(Apply(values, actions[0]), actions[1..]);
    }
  }

  /** A sheet whose data rows carry distinct member numbers becomes
      consistent at start-up and stays so, unless its first row is one that
      equals the header only once trimmed: `init_storage` keeps that row (see
      the findings). */
  lemma StartedRunConsistent(values: seq<Row>, actions: seq<Action>)
    requires values == [] || UniqueMembers(values[1..])
    requires values == [] || values[0] == SheetHeaders || TrimAll(values[0]) != SheetHeaders
    ensures Consistent(Run(values, [Start] + actions))
  {
    InitMakesConsistent(values);
    assert ([Start] + actions)[1..] == actions;
    RunKeepsConsistent(InitializedAsWritten(values), actions);
  }

  /** The excluded case: under the padded header, start-up leaves a sheet
      that is not consistent. */
  lemma PaddedStartNotConsistent(values: seq<Row>)
    requires values != [] && values[0] == PaddedHeader()
    ensures !Consistent(Run(values, [Start]))
  {
    AsWrittenKeepsPaddedHeader(values);
    PaddedHeaderTrims();
    assert Run(values, [Start]) == Run(InitializedAsWritten(values), []);
  }
}
