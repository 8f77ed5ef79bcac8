/** The records of the poll canister: polls, their voters and the votes cast,
    the payload a poll is created from, and the error kinds its operations
    report. Also the two pure pieces the operations are built from: the
    `findIndex` search and the read-time redaction of a poll. */
module Polls {

  /** A caller identity. Only equality between principals matters here. */
  datatype Principal = Principal(bytes: seq<bv8>)

  /** A registered participant of one poll, with its vote weight. */
  datatype Voter = Voter(name: string, voter: Principal, contribution: real)

  /** One cast vote: the voter's name, the option index and the weight the
      voter had when voting. */
  datatype VotingDetail = VotingDetail(name: string, option: int, contribution: real)

  datatype Poll = Poll(
    name: string,
    owner: Principal,
    description: string,
    noOfOptions: int,
    options: seq<string>,
    pollClosingAt: int,
    voters: seq<Voter>,
    votingDetails: seq<VotingDetail>)

  /** What a client sends to create a poll. `pollClosing` is the closing
      deadline already parsed to a time stamp in the clock's unit. */
  datatype PollPayload = PollPayload(
    name: string,
    description: string,
    noOfOptions: int,
    options: seq<string>,
    pollClosing: int)

  /** One constructor per distinct error message of the canister. */
  datatype Error =
    | MaxPollsReached
    | ClosingNotInFuture
    | PollNameInUse
    | OptionCountMismatch
    | PollNotFound
    | VoterNameInUse
    | PrincipalAlreadyRegistered
    | NotOwner
    | VoterNotFound
    | OwnerOwnContribution
    | VotingClosed
    | PrincipalMismatch
    | OptionNotFound
    | ResultsNotYetAvailable

  datatype Result<T> = Ok(value: T) | Err(error: Error)

  /** The registry never holds more polls than this. */
  const MaxPolls: nat := 3

  /** The contribution a newly registered voter starts with. */
  const DefaultContribution: real := 1.0

  // ---------------------------------------------------------------------
  // Searching
  // ---------------------------------------------------------------------

  /** `findIndex` with an equality test: the first position of `x` in `s`,
      or -1 when `x` does not occur. */
  function IndexOf<T(==)>(s: seq<T>, x: T): (i: int)
    ensures -1 <= i < |s|
    ensures i == -1 <==> x !in s
    ensures 0 <= i ==> s[i] == x && x !in s[..i]
  {
    if |s| == 0 then -1
    else if s[0] == x then 0
    else
      var j := IndexOf(s[1..], x);
      if j == -1 then -1 else j + 1
  }

  /** The display names of `voters`, position by position. */
  function VoterNames(voters: seq<Voter>): (r: seq<string>)
    ensures |r| == |voters|
    ensures forall i :: 0 <= i < |voters| ==> r[i] == voters[i].name
  {
    seq(|voters|, i requires 0 <= i < |voters| => voters[i].name)
  }

  /** `voters.findIndex(elem => elem.name === name)`: the position of the
      first voter with that display name, or -1 when there is none. */
  function VoterIndex(voters: seq<Voter>, name: string): (i: int)
    ensures -1 <= i < |voters|
    ensures i == -1 <==> name !in VoterNames(voters)
    ensures 0 <= i ==> voters[i].name == name && name !in VoterNames(voters[..i])
  {
    var i := IndexOf(VoterNames(voters), name);
    assert 0 <= i ==> VoterNames(voters)[..i] == VoterNames(voters[..i]);
    i
  }

  /** The principals of `voters`, position by position. */
  function VoterPrincipals(voters: seq<Voter>): (r: seq<Principal>)
    ensures |r| == |voters|
    ensures forall i :: 0 <= i < |voters| ==> r[i] == voters[i].voter
  {
    seq(|voters|, i requires 0 <= i < |voters| => voters[i].voter)
  }

  // ---------------------------------------------------------------------
  // Invariants
  // ---------------------------------------------------------------------

  predicate Distinct<T(==)>(s: seq<T>) {
    forall i, j :: 0 <= i < j < |s| ==> s[i] != s[j]
  }

  /** What every stored poll satisfies: the option count matches the option
      list, voter names and voter principals are each unique, and every vote
      names a registered voter and a valid option index. */
  predicate WellFormed(p: Poll) {
    && p.noOfOptions == |p.options|
    && Distinct(VoterNames(p.voters))
    && Distinct(VoterPrincipals(p.voters))
    && forall d :: d in p.votingDetails ==>
         0 <= d.option < |p.options| && d.name in VoterNames(p.voters)
  }

  /** The registry invariant: within capacity, each poll stored under its own
      name, each poll well formed. */
  predicate RegistryInvariant(polls: map<string, Poll>) {
    && |polls| <= MaxPolls
    && forall n :: n in polls ==> polls[n].name == n && WellFormed(polls[n])
  }

  /** `q` is a later state of poll `p`: the fields fixed at creation are
      equal, registered voters keep their position, name and principal, and
      the vote log has only grown at its end. */
  predicate Extends(p: Poll, q: Poll) {
    && q.name == p.name
    && q.owner == p.owner
    && q.description == p.description
    && q.noOfOptions == p.noOfOptions
    && q.options == p.options
    && q.pollClosingAt == p.pollClosingAt
    && |p.voters| <= |q.voters|
    && (forall i :: 0 <= i < |p.voters| ==>
          q.voters[i].name == p.voters[i].name && q.voters[i].voter == p.voters[i].voter)
    && p.votingDetails <= q.votingDetails
  }

  lemma ExtendsTransitive(p: Poll, q: Poll, r: Poll)
    requires Extends(p, q) && Extends(q, r)
    ensures Extends(p, r)
  {
  }

  // ---------------------------------------------------------------------
  // Read-time redaction
  // ---------------------------------------------------------------------

  /** The poll as `caller` is allowed to see it: the owner sees the stored
      record; anyone else sees every field except that the voter list and the
      vote log come back empty. */
  function View(p: Poll, caller: Principal): (r: Poll)
    ensures r.name == p.name && r.owner == p.owner && r.description == p.description
    ensures r.noOfOptions == p.noOfOptions && r.options == p.options
    ensures r.pollClosingAt == p.pollClosingAt
    ensures caller == p.owner ==> r == p
    ensures caller != p.owner ==> r.voters == [] && r.votingDetails == []
  {
    if p.owner != caller then p.(voters := [], votingDetails := []) else p
  }
}
