/** The update operations of the poll canister as functions on the registry's
    contents: each takes the map from poll name to poll, the caller and (where
    the canister reads the clock) the current time, and gives the operation's
    result together with the map it leaves behind. The `Registry` class
    performs the same steps in place and is proved against these. */
module Lifecycle {
  import opened Polls

  /** An operation's outcome and the registry contents after it. */
  datatype Step<T> = Step(result: Result<T>, polls: map<string, Poll>)

  /** The poll `createPoll` builds from a payload: owned by the caller, with
      the parsed deadline and no voters or votes yet. */
  function NewPoll(payload: PollPayload, caller: Principal): (p: Poll)
    ensures p.owner == caller && p.pollClosingAt == payload.pollClosing
    ensures p.voters == [] && p.votingDetails == []
    ensures p.name == payload.name && p.description == payload.description
    ensures p.noOfOptions == payload.noOfOptions && p.options == payload.options
  {
    Poll(payload.name, caller, payload.description, payload.noOfOptions,
         payload.options, payload.pollClosing, [], [])
  }

  /** `createPoll`: the checks run in the order capacity, deadline in the
      future, name free, option count; the first that fails decides the
      error and nothing is stored. On success exactly one poll is added,
      under the payload's name. */
  function CreatePoll(polls: map<string, Poll>, payload: PollPayload, caller: Principal, now: int)
    : (s: Step<Poll>)
    ensures s.result.Err? ==> s.polls == polls
    ensures s.result == Err(MaxPollsReached) <==> |polls| == MaxPolls
    ensures s.result == Err(ClosingNotInFuture) <==>
              |polls| != MaxPolls && payload.pollClosing <= now
    ensures s.result == Err(PollNameInUse) <==>
              |polls| != MaxPolls && now < payload.pollClosing && payload.name in polls
    ensures s.result == Err(OptionCountMismatch) <==>
              |polls| != MaxPolls && now < payload.pollClosing && payload.name !in polls
              && payload.noOfOptions != |payload.options|
    ensures s.result.Ok? <==>
              |polls| != MaxPolls && now < payload.pollClosing && payload.name !in polls
              && payload.noOfOptions == |payload.options|
    ensures s.result.Ok? ==>
              && s.result.value == NewPoll(payload, caller)
              && payload.name !in polls
              && s.polls == polls[payload.name := s.result.value]
              && |s.polls| == |polls| + 1
    ensures forall n :: n in polls ==> n in s.polls && s.polls[n] == polls[n]
    ensures RegistryInvariant(polls) ==> RegistryInvariant(s.polls)
  {
    if |polls| == MaxPolls then Step(Err(MaxPollsReached), polls)
    else if payload.pollClosing <= now then Step(Err(ClosingNotInFuture), polls)
    else if payload.name in polls then Step(Err(PollNameInUse), polls)
    else if payload.noOfOptions != |payload.options| then Step(Err(OptionCountMismatch), polls)
    else
      var poll := NewPoll(payload, caller);
      Step(Ok(poll), polls[payload.name := poll])
  }

  /** `registerVoterToPoll`: rejects an unknown poll, a display name already
      in use and a caller already registered; otherwise appends one voter
      bound to the caller with the default contribution and changes nothing
      else. */
  function RegisterVoterToPoll(polls: map<string, Poll>, pollname: string, votername: string, caller: Principal)
    : (s: Step<Voter>)
    ensures s.result.Err? ==> s.polls == polls
    ensures s.result == Err(PollNotFound) <==> pollname !in polls
    ensures s.result == Err(VoterNameInUse) <==>
              pollname in polls && votername in VoterNames(polls[pollname].voters)
    ensures s.result == Err(PrincipalAlreadyRegistered) <==>
              pollname in polls && votername !in VoterNames(polls[pollname].voters)
              && caller in VoterPrincipals(polls[pollname].voters)
    ensures s.result.Ok? <==>
              pollname in polls && votername !in VoterNames(polls[pollname].voters)
              && caller !in VoterPrincipals(polls[pollname].voters)
    ensures s.result.Ok? ==>
              && s.result.value == Voter(votername, caller, DefaultContribution)
              && pollname in polls && s.polls.Keys == polls.Keys
              && s.polls[pollname] == polls[pollname].(voters := polls[pollname].voters + [s.result.value])
    ensures forall n :: n in polls && n != pollname ==> n in s.polls && s.polls[n] == polls[n]
    ensures forall n :: n in polls ==> n in s.polls && Extends(polls[n], s.polls[n])
    ensures RegistryInvariant(polls) ==> RegistryInvariant(s.polls)
  {
    if pollname !in polls then Step(Err(PollNotFound), polls)
    else
      var poll := polls[pollname];
      var voterIndex := VoterIndex(poll.voters, votername);
      if voterIndex != -1 then Step(Err(VoterNameInUse), polls)
      else
        var callerIndex := IndexOf(VoterPrincipals(poll.voters), caller);
        if callerIndex != -1 then Step(Err(PrincipalAlreadyRegistered), polls)
        else
          var voter := Voter(votername, caller, DefaultContribution);
          var updated := poll.(voters := poll.voters + [voter]);
          assert VoterNames(updated.voters) == VoterNames(poll.voters) + [votername];
          assert VoterPrincipals(updated.voters) == VoterPrincipals(poll.voters) + [caller];
          Step(Ok(voter), polls[pollname := updated])
  }

  /** `changeVoterContribution`: rejects an unknown poll, a caller who is not
      the owner, an unknown voter name and the owner's own voter entry;
      otherwise sets that one voter's contribution and changes nothing else. */
  function ChangeVoterContribution(
    polls: map<string, Poll>, pollname: string, votername: string, contribution: real, caller: Principal)
    : (s: Step<Voter>)
    ensures s.result.Err? ==> s.polls == polls
    ensures s.result == Err(PollNotFound) <==> pollname !in polls
    ensures s.result == Err(NotOwner) <==> pollname in polls && polls[pollname].owner != caller
    ensures s.result == Err(VoterNotFound) <==>
              pollname in polls && polls[pollname].owner == caller
              && votername !in VoterNames(polls[pollname].voters)
    ensures s.result == Err(OwnerOwnContribution) <==>
              pollname in polls && polls[pollname].owner == caller
              && var i := VoterIndex(polls[pollname].voters, votername);
                 0 <= i && polls[pollname].voters[i].voter == caller
    ensures s.result.Ok? <==>
              pollname in polls && polls[pollname].owner == caller
              && var i := VoterIndex(polls[pollname].voters, votername);
                 0 <= i && polls[pollname].voters[i].voter != caller
    ensures s.result.Ok? ==> pollname in polls && s.polls.Keys == polls.Keys
    ensures s.result.Ok? && pollname in polls && pollname in s.polls ==>
              var before := polls[pollname];
              var after := s.polls[pollname];
              var i := VoterIndex(before.voters, votername);
              && 0 <= i
              && s.result.value == before.voters[i].(contribution := contribution)
              && s.result.value.voter != before.owner
              && after == before.(voters := before.voters[i := s.result.value])
    ensures forall n :: n in polls && n != pollname ==> n in s.polls && s.polls[n] == polls[n]
    ensures forall n :: n in polls ==> n in s.polls && Extends(polls[n], s.polls[n])
    ensures RegistryInvariant(polls) ==> RegistryInvariant(s.polls)
  {
    if pollname !in polls then Step(Err(PollNotFound), polls)
    else
      var poll := polls[pollname];
      if poll.owner != caller then Step(Err(NotOwner), polls)
      else
        var voterIndex := VoterIndex(poll.voters, votername);
        if voterIndex == -1 then Step(Err(VoterNotFound), polls)
        else if poll.voters[voterIndex].voter == caller then Step(Err(OwnerOwnContribution), polls)
        else
          var voter := poll.voters[voterIndex].(contribution := contribution);
          var updated := poll.(voters := poll.voters[voterIndex := voter]);
          assert VoterNames(updated.voters) == VoterNames(poll.voters);
          assert VoterPrincipals(updated.voters) == VoterPrincipals(poll.voters);
          Step(Ok(voter), polls[pollname := updated])
  }

  /** `voteToPoll`: rejects, in this order, an unknown poll, a poll whose
      closing time has come, an unknown voter name, a voter registered under
      another principal and an unknown option label; otherwise appends one
      vote carrying the first index of the label and the voter's present
      contribution. Voters and options are left as they were. */
  function VoteToPoll(
    polls: map<string, Poll>, pollname: string, votername: string, option: string, caller: Principal, now: int)
    : (s: Step<VotingDetail>)
    ensures s.result.Err? ==> s.polls == polls
    ensures s.result == Err(PollNotFound) <==> pollname !in polls
    ensures s.result == Err(VotingClosed) <==> pollname in polls && polls[pollname].pollClosingAt <= now
    ensures s.result == Err(VoterNotFound) <==>
              pollname in polls && now < polls[pollname].pollClosingAt
              && votername !in VoterNames(polls[pollname].voters)
    ensures s.result == Err(PrincipalMismatch) <==>
              pollname in polls && now < polls[pollname].pollClosingAt
              && var i := VoterIndex(polls[pollname].voters, votername);
                 0 <= i && polls[pollname].voters[i].voter != caller
    ensures s.result == Err(OptionNotFound) <==>
              pollname in polls && now < polls[pollname].pollClosingAt
              && (var i := VoterIndex(polls[pollname].voters, votername);
                  0 <= i && polls[pollname].voters[i].voter == caller)
              && option !in polls[pollname].options
    ensures s.result.Ok? <==>
              pollname in polls && now < polls[pollname].pollClosingAt
              && (var i := VoterIndex(polls[pollname].voters, votername);
                  0 <= i && polls[pollname].voters[i].voter == caller)
              && option in polls[pollname].options
    ensures s.result.Ok? ==> pollname in polls && s.polls.Keys == polls.Keys
    ensures s.result.Ok? && pollname in polls && pollname in s.polls ==>
              var before := polls[pollname];
              var d := s.result.value;
              var i := VoterIndex(before.voters, votername);
              && 0 <= i
              && d.name == votername
              && 0 <= d.option < |before.options|
              && before.options[d.option] == option
              && option !in before.options[..d.option]
              && d.contribution == before.voters[i].contribution
              && s.polls[pollname] == before.(votingDetails := before.votingDetails + [d])
    ensures forall n :: n in polls && n != pollname ==> n in s.polls && s.polls[n] == polls[n]
    ensures forall n :: n in polls ==> n in s.polls && Extends(polls[n], s.polls[n])
    ensures RegistryInvariant(polls) ==> RegistryInvariant(s.polls)
  {
    if pollname !in polls then Step(Err(PollNotFound), polls)
    else
      var poll := polls[pollname];
      if poll.pollClosingAt <= now then Step(Err(VotingClosed), polls)
      else
        var voterIndex := VoterIndex(poll.voters, votername);
        if voterIndex == -1 then Step(Err(VoterNotFound), polls)
        else if poll.voters[voterIndex].voter != caller then Step(Err(PrincipalMismatch), polls)
        else
          var optionIndex := IndexOf(poll.options, option);
          if optionIndex == -1 then Step(Err(OptionNotFound), polls)
          else
            var detail := VotingDetail(votername, optionIndex, poll.voters[voterIndex].contribution);
            var updated := poll.(votingDetails := poll.votingDetails + [detail]);
            Step(Ok(detail), polls[pollname := updated])
  }

  /** The part of `getVotingResult` that precedes the tally: an unknown poll
      is an error, results are withheld while the poll is still open, and
      once it has closed the tally starts from one zero per option. */
  function VotingResultBuffer(polls: map<string, Poll>, name: string, now: int): (r: Result<seq<real>>)
    requires RegistryInvariant(polls)
    ensures r == Err(PollNotFound) <==> name !in polls
    ensures r == Err(ResultsNotYetAvailable) <==> name in polls && now < polls[name].pollClosingAt
    ensures r.Ok? ==>
              && name in polls && polls[name].pollClosingAt <= now
              && |r.value| == |polls[name].options|
              && forall i :: 0 <= i < |r.value| ==> r.value[i] == 0.0
  {
    if name !in polls then Err(PollNotFound)
    else
      var poll := polls[name];
      if poll.pollClosingAt <= now then Ok(seq(poll.noOfOptions, _ => 0.0))
      else Err(ResultsNotYetAvailable)
  }
}
