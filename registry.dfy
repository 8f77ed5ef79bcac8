/** The canister's global poll store as an object. `polls` is the stable map
    from poll name to poll; `names` lists its keys once each, in the order
    they were inserted, and fixes the order `getAllPolls` returns. Every
    update reads a poll, runs its checks, changes one list of that poll and
    writes the poll back under the same name. */
module PollRegistry {
  import opened Polls
  import Lifecycle

  class Registry {
    var polls: map<string, Poll>
    var names: seq<string>

    ghost predicate Valid()
      reads this
    {
      && RegistryInvariant(polls)
      && Distinct(names)
      && |names| == |polls|
      && forall n :: n in polls <==> n in names
    }

    /** An empty store. */
    constructor ()
      ensures Valid()
      ensures polls == map[] && names == []
    {
      polls := map[];
      names := [];
    }

    /** `createPoll`: the caller becomes the owner; the payload's deadline
        must lie after `now`. */
    method CreatePoll(payload: PollPayload, caller: Principal, now: int) returns (r: Result<Poll>)
      requires Valid()
      modifies this
      ensures Valid()
      ensures Lifecycle.Step(r, polls) == Lifecycle.CreatePoll(old(polls), payload, caller, now)
      ensures names == if r.Ok? then old(names) + [payload.name] else old(names)
    {
      if |polls| == MaxPolls {
        return Err(MaxPollsReached);
      }
      var pollClosingAt := payload.pollClosing;
      if pollClosingAt <= now {
        return Err(ClosingNotInFuture);
      }
      if payload.name in polls {
        return Err(PollNameInUse);
      }
      if payload.noOfOptions != |payload.options| {
        return Err(OptionCountMismatch);
      }
      var poll := Poll(payload.name, caller, payload.description, payload.noOfOptions,
                       payload.options, pollClosingAt, [], []);
      polls := polls[payload.name := poll];
      names := names + [payload.name];
      return Ok(poll);
    }

    /** `getPollByName`: the named poll as `caller` may see it. */
    function GetPollByName(name: string, caller: Principal): (r: Result<Poll>)
      reads this
      ensures r.Err? <==> name !in polls
      ensures r.Err? ==> r.error == PollNotFound
      ensures r.Ok? ==>
                && r.value.name == polls[name].name
                && r.value.owner == polls[name].owner
                && r.value.description == polls[name].description
                && r.value.noOfOptions == polls[name].noOfOptions
                && r.value.options == polls[name].options
                && r.value.pollClosingAt == polls[name].pollClosingAt
                && (caller == polls[name].owner ==> r.value == polls[name])
                && (caller != polls[name].owner ==> r.value.voters == [] && r.value.votingDetails == [])
    {
      if name in polls then Ok(View(polls[name], caller)) else Err(PollNotFound)
    }

    /** `getAllPolls`: every stored poll exactly once, in store order, each
        as `caller` may see it. */
    function GetAllPolls(caller: Principal): (r: seq<Poll>)
      reads this
      requires Valid()
      ensures |r| == |polls|
      ensures forall i :: 0 <= i < |r| ==> r[i].name in polls && r[i] == View(polls[r[i].name], caller)
      ensures forall n :: n in polls ==> exists i :: 0 <= i < |r| && r[i].name == n
      ensures forall i, j :: 0 <= i < j < |r| ==> r[i].name != r[j].name
    {
      var ps, ns := polls, names;
      var r := seq(|ns|, i requires 0 <= i < |ns| && ns[i] in ps => View(ps[ns[i]], caller));
      assert forall i :: 0 <= i < |r| ==> r[i] == View(ps[ns[i]], caller) && ps[ns[i]].name == ns[i];
      assert forall i :: 0 <= i < |r| ==> r[i].name == ns[i];
      assert forall n :: n in ps ==> r[IndexOf(ns, n)].name == n;
      r
    }

    /** `registerVoterToPoll`: the caller joins the named poll under
        `votername`. */
    method RegisterVoterToPoll(pollname: string, votername: string, caller: Principal) returns (r: Result<Voter>)
      requires Valid()
      modifies this
      ensures Valid()
      ensures names == old(names)
      ensures Lifecycle.Step(r, polls) == Lifecycle.RegisterVoterToPoll(old(polls), pollname, votername, caller)
    {
      if pollname !in polls {
        return Err(PollNotFound);
      }
      var poll := polls[pollname];
      var voterIndex := VoterIndex(poll.voters, votername);
      if voterIndex != -1 {
        return Err(VoterNameInUse);
      }
      var callerIndex := IndexOf(VoterPrincipals(poll.voters), caller);
      if callerIndex != -1 {
        return Err(PrincipalAlreadyRegistered);
      }
      var voter := Voter(votername, caller, DefaultContribution);
      poll := poll.(voters := poll.voters + [voter]);
      polls := polls[pollname := poll];
      // The step function's contract carries the store invariant over.
      assert Lifecycle.RegisterVoterToPoll(old(polls), pollname, votername, caller) == Lifecycle.Step(Ok(voter), polls);
      return Ok(voter);
    }

    /** `changeVoterContribution`: the owner sets another voter's weight. */
    method ChangeVoterContribution(pollname: string, votername: string, contribution: real, caller: Principal)
      returns (r: Result<Voter>)
      requires Valid()
      modifies this
      ensures Valid()
      ensures names == old(names)
      ensures Lifecycle.Step(r, polls)
              == Lifecycle.ChangeVoterContribution(old(polls), pollname, votername, contribution, caller)
    {
      if pollname !in polls {
        return Err(PollNotFound);
      }
      var poll := polls[pollname];
      if poll.owner != caller {
        return Err(NotOwner);
      }
      var voterIndex := VoterIndex(poll.voters, votername);
      if voterIndex == -1 {
        return Err(VoterNotFound);
      }
      var voter := poll.voters[voterIndex];
      if voter.voter == caller {
        return Err(OwnerOwnContribution);
      }
      voter := voter.(contribution := contribution);
      poll := poll.(voters := poll.voters[voterIndex := voter]);
      polls := polls[pollname := poll];
      assert Lifecycle.ChangeVoterContribution(old(polls), pollname, votername, contribution, caller)
             == Lifecycle.Step(Ok(voter), polls);
      return Ok(voter);
    }

    /** `voteToPoll`: a registered voter casts one vote for `option`. */
    method VoteToPoll(pollname: string, votername: string, option: string, caller: Principal, now: int)
      returns (r: Result<VotingDetail>)
      requires Valid()
      modifies this
      ensures Valid()
      ensures names == old(names)
      ensures Lifecycle.Step(r, polls)
              == Lifecycle.VoteToPoll(old(polls), pollname, votername, option, caller, now)
    {
      if pollname !in polls {
        return Err(PollNotFound);
      }
      var poll := polls[pollname];
      if poll.pollClosingAt <= now {
        return Err(VotingClosed);
      }
      var voterIndex := VoterIndex(poll.voters, votername);
      if voterIndex == -1 {
        return Err(VoterNotFound);
      }
      if poll.voters[voterIndex].voter != caller {
        return Err(PrincipalMismatch);
      }
      var optionIndex := IndexOf(poll.options, option);
      if optionIndex == -1 {
        return Err(OptionNotFound);
      }
      var detail := VotingDetail(votername, optionIndex, poll.voters[voterIndex].contribution);
      poll := poll.(votingDetails := poll.votingDetails + [detail]);
      polls := polls[pollname := poll];
      assert Lifecycle.VoteToPoll(old(polls), pollname, votername, option, caller, now) == Lifecycle.Step(Ok(detail), polls);
      return Ok(detail);
    }

    /** `getVotingResult` up to the tally: once the poll has closed, a fresh
        buffer of `no_of_options` slots is filled with zeros. */
    method GetVotingResult(name: string, now: int) returns (r: Result<array<real>>)
      requires Valid()
      ensures r.Err? ==> Lifecycle.VotingResultBuffer(polls, name, now) == Err(r.error)
      ensures r.Ok? ==> Lifecycle.VotingResultBuffer(polls, name, now) == Ok(r.value[..])
    {
      if name !in polls {
        return Err(PollNotFound);
      }
      var poll := polls[name];
      if poll.pollClosingAt <= now {
        var noOfVotes := new real[poll.noOfOptions];
        var i := 0;
        while i < noOfVotes.Length
          invariant 0 <= i <= noOfVotes.Length
          invariant forall k :: 0 <= k < i ==> noOfVotes[k] == 0.0
        {
          noOfVotes[i] := 0.0;
          i := i + 1;
        }
        assert noOfVotes[..] == seq(poll.noOfOptions, _ => 0.0);
        return Ok(noOfVotes);
      }
      return Err(ResultsNotYetAvailable);
    }
  }
}
