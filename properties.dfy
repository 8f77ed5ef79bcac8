/** Properties of the poll canister over any sequence of update calls, and
    a worked example that follows one poll from creation to its results. */
module PollProperties {
  import opened Polls
  import opened Lifecycle

  /** One update call, with the caller and clock reading it was made with. */
  datatype Call =
    | Create(payload: PollPayload, caller: Principal, now: int)
    | Register(pollname: string, votername: string, caller: Principal)
    | Change(pollname: string, votername: string, contribution: real, caller: Principal)
    | Vote(pollname: string, votername: string, option: string, caller: Principal, now: int)

  /** The registry contents after one call, whether it succeeded or not. */
  function Apply(polls: map<string, Poll>, c: Call): map<string, Poll>
  {
    match c
    case Create(payload, caller, now) => CreatePoll(polls, payload, caller, now).polls
    case Register(pollname, votername, caller) => RegisterVoterToPoll(polls, pollname, votername, caller).polls
    case Change(pollname, votername, contribution, caller) =>
      ChangeVoterContribution(polls, pollname, votername, contribution, caller).polls
    case Vote(pollname, votername, option, caller, now) =>
      VoteToPoll(polls, pollname, votername, option, caller, now).polls
  }

  /** The registry contents after a sequence of calls, first call first. */
  function Run(polls: map<string, Poll>, calls: seq<Call>): map<string, Poll>
    decreases |calls|
  {
    if calls == [] then polls else Run(Apply(polls, calls[0]), calls[1..])
  }

  /** Whatever the calls and their order, the registry stays within its
      capacity of three polls, every poll stays stored under its own name,
      and voter names and voter principals stay unique within each poll. */
  lemma {:induction false} RunPreservesInvariant(polls: map<string, Poll>, calls: seq<Call>)
    requires RegistryInvariant(polls)
    ensures RegistryInvariant(Run(polls, calls))
    decreases |calls|
  {
    if calls != [] {
      RunPreservesInvariant(Apply(polls, calls[0]), calls[1..]);
    }
  }

  lemma ApplyExtends(polls: map<string, Poll>, c: Call)
    ensures forall n :: n in polls ==> n in Apply(polls, c) && Extends(polls[n], Apply(polls, c)[n])
  {
  }

  /** No poll is ever removed; its owner, description, options, option count
      and closing time never change; registered voters keep their place,
      name and principal; and the vote log only grows at its end, so a cast
      vote keeps the weight it was cast with. */
  lemma {:induction false} RunExtends(polls: map<string, Poll>, calls: seq<Call>)
    ensures forall n :: n in polls ==> n in Run(polls, calls) && Extends(polls[n], Run(polls, calls)[n])
    decreases |calls|
  {
    if calls != [] {
      var next := Apply(polls, calls[0]);
      ApplyExtends(polls, calls[0]);
      RunExtends(next, calls[1..]);
      forall n | n in polls
        ensures n in Run(polls, calls) && Extends(polls[n], Run(polls, calls)[n])
      {
        ExtendsTransitive(polls[n], next[n], Run(next, calls[1..])[n]);
      }
    }
  }

  /** Once the registry holds three polls it keeps exactly those names, and
      every later `createPoll` fails for lack of room, whatever happened in
      between. */
  lemma FullRegistryRejectsCreates(
    polls: map<string, Poll>, calls: seq<Call>, payload: PollPayload, caller: Principal, now: int)
    requires RegistryInvariant(polls) && |polls| == MaxPolls
    ensures Run(polls, calls).Keys == polls.Keys
    ensures CreatePoll(Run(polls, calls), payload, caller, now).result == Err(MaxPollsReached)
  {
    var after := Run(polls, calls);
    RunPreservesInvariant(polls, calls);
    RunExtends(polls, calls);
    assert polls.Keys <= after.Keys;
    assert |after.Keys - polls.Keys| == |after.Keys| - |polls.Keys|;
    assert after.Keys - polls.Keys == {};
  }

  /** At any instant a stored poll is either open for voting or has its
      results available, never both and never neither; the closing instant
      itself counts as closed. */
  lemma VotingAndResultWindowsComplementary(
    polls: map<string, Poll>, pollname: string, votername: string, option: string, caller: Principal, now: int)
    requires RegistryInvariant(polls) && pollname in polls
    ensures VoteToPoll(polls, pollname, votername, option, caller, now).result == Err(VotingClosed)
            <==> VotingResultBuffer(polls, pollname, now).Ok?
    ensures now == polls[pollname].pollClosingAt ==>
              VoteToPoll(polls, pollname, votername, option, caller, now).result == Err(VotingClosed)
  {
  }

  // The steps of the walk-through below, one poll at a time.

  lemma RegisterFirstVoter(p: Poll, votername: string, caller: Principal)
    requires p.voters == []
    ensures RegisterVoterToPoll(map[p.name := p], p.name, votername, caller)
            == Step(Ok(Voter(votername, caller, 1.0)), map[p.name := p.(voters := [Voter(votername, caller, 1.0)])])
  {
    var s := RegisterVoterToPoll(map[p.name := p], p.name, votername, caller);
    var v := Voter(votername, caller, 1.0);
    assert VoterNames(p.voters) == [] && VoterPrincipals(p.voters) == [];
    assert s.result == Ok(v);
    assert p.voters + [v] == [v];
    assert s.polls[p.name] == p.(voters := [v]);
    assert s.polls.Keys == {p.name};
    assert s.polls == map[p.name := p.(voters := [v])];
  }

  lemma ChangeOnlyVoter(p: Poll, v: Voter, contribution: real)
    requires p.voters == [v] && v.voter != p.owner
    ensures ChangeVoterContribution(map[p.name := p], p.name, v.name, contribution, p.owner)
            == Step(Ok(v.(contribution := contribution)), map[p.name := p.(voters := [v.(contribution := contribution)])])
  {
    var s := ChangeVoterContribution(map[p.name := p], p.name, v.name, contribution, p.owner);
    assert VoterNames(p.voters) == [v.name];
    assert p.voters[0].name == v.name && v.name !in VoterNames(p.voters[..0]);
    assert s.polls.Keys == {p.name};
    assert s.polls[p.name].voters == [v.(contribution := contribution)];
  }

  lemma VoteOfOnlyVoter(p: Poll, v: Voter, k: nat, now: int)
    requires p.voters == [v] && now < p.pollClosingAt && k < |p.options|
    requires p.options[k] !in p.options[..k]
    ensures VoteToPoll(map[p.name := p], p.name, v.name, p.options[k], v.voter, now)
            == Step(Ok(VotingDetail(v.name, k, v.contribution)),
                    map[p.name := p.(votingDetails := p.votingDetails + [VotingDetail(v.name, k, v.contribution)])])
  {
  }

  lemma ResultBufferOfOnlyPoll(p: Poll, now: int)
    requires WellFormed(p) && p.pollClosingAt <= now
    ensures RegistryInvariant(map[p.name := p])
    ensures VotingResultBuffer(map[p.name := p], p.name, now) == Ok(seq(p.noOfOptions, _ => 0.0))
  {
  }

  /** The poll "P1" of the walk-through below, with options Yes and No. */
  function P1(owner: Principal, deadline: int, voters: seq<Voter>, votes: seq<VotingDetail>): Poll
  {
    Poll("P1", owner, "", 2, ["Yes", "No"], deadline, voters, votes)
  }

  /** The worked example, one call per lemma: the owner creates "P1"
      with options Yes and No closing an hour from now, ... */
  lemma WalkThroughCreate(owner: Principal, now: int)
    ensures CreatePoll(map[], PollPayload("P1", "", 2, ["Yes", "No"], now + 3600000), owner, now)
            == Step(Ok(P1(owner, now + 3600000, [], [])), map["P1" := P1(owner, now + 3600000, [], [])])
  {
  }

  /** ... "alice" registers and gets the default weight 1, ... */
  lemma WalkThroughRegister(owner: Principal, alice: Principal, deadline: int)
    ensures RegisterVoterToPoll(map["P1" := P1(owner, deadline, [], [])], "P1", "alice", alice)
            == Step(Ok(Voter("alice", alice, 1.0)), map["P1" := P1(owner, deadline, [Voter("alice", alice, 1.0)], [])])
  {
    RegisterFirstVoter(P1(owner, deadline, [], []), "alice", alice);
  }

  /** ... the owner raises her weight to 3, ... */
  lemma WalkThroughChange(owner: Principal, alice: Principal, deadline: int)
    requires owner != alice
    ensures ChangeVoterContribution(map["P1" := P1(owner, deadline, [Voter("alice", alice, 1.0)], [])],
                                    "P1", "alice", 3.0, owner)
            == Step(Ok(Voter("alice", alice, 3.0)), map["P1" := P1(owner, deadline, [Voter("alice", alice, 3.0)], [])])
  {
    ChangeOnlyVoter(P1(owner, deadline, [Voter("alice", alice, 1.0)], []), Voter("alice", alice, 1.0), 3.0);
  }

  /** ... she votes Yes before the deadline and the vote is recorded for
      option 0 with weight 3, ... */
  lemma WalkThroughVote(owner: Principal, alice: Principal, deadline: int, now: int)
    requires now < deadline
    ensures VoteToPoll(map["P1" := P1(owner, deadline, [Voter("alice", alice, 3.0)], [])], "P1", "alice", "Yes", alice, now)
            == Step(Ok(VotingDetail("alice", 0, 3.0)),
                    map["P1" := P1(owner, deadline, [Voter("alice", alice, 3.0)], [VotingDetail("alice", 0, 3.0)])])
  {
    var p3 := P1(owner, deadline, [Voter("alice", alice, 3.0)], []);
    var d := VotingDetail("alice", 0, 3.0);
    assert p3.options[0] == "Yes" && p3.options[..0] == [];
    assert p3.(votingDetails := p3.votingDetails + [d]) == P1(owner, deadline, [Voter("alice", alice, 3.0)], [d]);
    VoteOfOnlyVoter(p3, Voter("alice", alice, 3.0), 0, now);
  }

  /** ... and once the poll has closed the tally starts from two zero slots. */
  lemma WalkThroughResults(owner: Principal, alice: Principal, deadline: int, now: int)
    requires deadline <= now
    ensures var closed := map["P1" := P1(owner, deadline, [Voter("alice", alice, 3.0)], [VotingDetail("alice", 0, 3.0)])];
            RegistryInvariant(closed) && VotingResultBuffer(closed, "P1", now) == Ok([0.0, 0.0])
  {
    var p4 := P1(owner, deadline, [Voter("alice", alice, 3.0)], [VotingDetail("alice", 0, 3.0)]);
    assert VoterNames(p4.voters) == ["alice"] && VoterPrincipals(p4.voters) == [alice];
    ResultBufferOfOnlyPoll(p4, now);
    assert seq(2, _ => 0.0) == [0.0, 0.0];
  }

  /** An owner who registered as a voter cannot change their own weight. */
  lemma OwnerSelfEditScenario(owner: Principal, now: int, deadline: int)
    requires now < deadline
    ensures
      var payload := PollPayload("P1", "", 2, ["Yes", "No"], deadline);
      var s1 := CreatePoll(map[], payload, owner, now);
      var s2 := RegisterVoterToPoll(s1.polls, "P1", "me", owner);
      && s2.result.Ok?
      && ChangeVoterContribution(s2.polls, "P1", "me", 5.0, owner).result == Err(OwnerOwnContribution)
  {
  }
}
