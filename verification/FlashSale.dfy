/** redis学习/redis_client_Test.go: MSRedis as interleaved atomic Redis commands of several clients. */
module FlashSale {
  import opened Basics

  /** Where a client stands in MSRedis: outside, or behind the stock check, the membership check, SAdd. */
  datatype Client = Idle | GotStock(user: string) | NotMember(user: string) | Added(user: string)

  /** `sold` records the user of every executed Decr. */
  datatype State = State(stock: int, members: set<string>, clients: seq<Client>, sold: seq<string>)

  predicate Init(s: State, k: nat, stock: int) {
    && s.stock == stock && s.members == {} && s.sold == []
    && |s.clients| == k && forall c :: 0 <= c < k ==> s.clients[c] == Idle
  }

  function Moved(s: State, c: nat, client: Client): State
    requires c < |s.clients|
  {
    s.(clients := s.clients[c := client])
  }

  /** One Redis command of client `c`. Any of them may also fail, before or after the server ran it,
      and MSRedis then returns. A run for the empty user ends the process before the first command. */
  ghost predicate Step(s: State, s': State, c: nat)
    requires c < |s.clients|
  {
    match s.clients[c]
    case Idle =>
      s' == s || (s.stock > 0 && exists u :: u != "" && s' == Moved(s, c, GotStock(u)))
    case GotStock(u) =>
      s' == Moved(s, c, Idle) || (u !in s.members && s' == Moved(s, c, NotMember(u)))
    case NotMember(u) =>
      var after := s.(members := s.members + {u});
      s' == Moved(s, c, Idle) || s' == Moved(after, c, Idle) || s' == Moved(after, c, Added(u))
    case Added(u) =>
      s' == Moved(s, c, Idle) || s' == Moved(s.(stock := s.stock - 1, sold := s.sold + [u]), c, Idle)
  }

  ghost predicate Next(s: State, s': State) {
    exists c :: 0 <= c < |s.clients| && Step(s, s', c)
  }

  ghost predicate Run(states: seq<State>, k: nat, stock: int) {
    && states != [] && Init(states[0], k, stock)
    && forall i :: 0 <= i < |states| - 1 ==> Next(states[i], states[i + 1])
  }

  /** A step touches one client, adds at most its user to the members, and sells to nobody else. */
  lemma {:induction false} StepMovesOne(s: State, s': State, c: nat)
    requires c < |s.clients| && Step(s, s', c)
    ensures |s'.clients| == |s.clients| && s'.clients == s.clients[c := s'.clients[c]]
    ensures s'.clients[c] == Idle || s'.clients[c].GotStock? || (s.clients[c] != Idle && s'.clients[c].user == s.clients[c].user)
    ensures s'.clients[c].NotMember? ==> s'.clients[c].user !in s.members && s'.members == s.members
    ensures s'.clients[c].Added? ==> s.clients[c].NotMember? && s'.clients[c].user in s'.members
    ensures s'.members == s.members || (s.clients[c].NotMember? && s'.members == s.members + {s.clients[c].user})
    ensures (s'.sold == s.sold && s'.stock == s.stock)
      || (s.clients[c].Added? && s'.clients[c] == Idle && s'.sold == s.sold + [s.clients[c].user] && s'.stock == s.stock - 1)
  {
  }

  // ----- one client, command by command

  /** What the network does to a command: it works, is lost before the server, or its reply is lost. */
  datatype Fault = Works | RequestLost | ReplyLost

  /** Exited: the process ends on an empty argument. Failed: MSRedis returns an error. */
  datatype Outcome = Exited | Failed | Done

  class Server {
    var stock: int
    var members: set<string>
    ghost var sold: seq<string>

    constructor (goods: int)
      ensures stock == goods && members == {} && sold == []
    {
      stock, members, sold := goods, {}, [];
    }

    /** The server and the one client that talks to it. */
    ghost function With(client: Client): State
      reads this
    {
      State(stock, members, [client], sold)
    }

    method SAdd(user: string, fault: Fault) returns (failed: bool)
      modifies this`members
      ensures members == if fault == RequestLost then old(members) else old(members) + {user}
      ensures failed <==> fault != Works
    {
      if fault != RequestLost {
        members := members + {user};
      }
      failed := fault != Works;
    }

    method Decr(ghost user: string, fault: Fault) returns (failed: bool)
      modifies this`stock, this`sold
      ensures stock == if fault == RequestLost then old(stock) else old(stock) - 1
      ensures sold == if fault == RequestLost then old(sold) else old(sold) + [user]
      ensures failed <==> fault != Works
    {
      if fault != RequestLost {
        stock := stock - 1;
        sold := sold + [user];
      }
      failed := fault != Works;
    }

    /** MSRedis undisturbed by others: its commands are steps of the protocol. A command is sent only if
        the ones before it worked and their answers allow it, and the call fails exactly if a command
        that is sent fails; a command whose reply is lost has still been executed. */
    method MSRedis(user: string, id: string, get: Fault, isMember: Fault, add: Fault, decr: Fault)
        returns (outcome: Outcome, ghost trace: seq<State>)
      modifies this
      ensures trace != [] && trace[0] == old(With(Idle)) && trace[|trace| - 1] == With(Idle)
      ensures forall i :: 0 <= i < |trace| - 1 ==> trace[i].clients != [] && Step(trace[i], trace[i + 1], 0)
      ensures outcome == Exited <==> user == "" || id == ""
      ensures var started := outcome != Exited;
        var left := started && get == Works && old(stock) > 0;          // SIsMember is sent
        var new' := left && isMember == Works && user !in old(members);  // SAdd is sent
        var added := new' && add == Works;                               // Decr is sent
        && (outcome == Failed <==>
             (started && get != Works) || (left && isMember != Works) || (new' && add != Works) || (added && decr != Works))
        && members == (if new' && add != RequestLost then old(members) + {user} else old(members))
        && (if added && decr != RequestLost then stock == old(stock) - 1 && sold == old(sold) + [user]
            else stock == old(stock) && sold == old(sold))
    {
      trace := [With(Idle)];
      if user == "" || id == "" {
        return Exited, trace;
      }
      var left := stock;
      if get != Works {
        return Failed, trace;
      }
      if left <= 0 {
        return Done, trace;
      }
      trace := trace + [With(GotStock(user))];
      var exists' := user in members;
      if isMember != Works {
        return Failed, trace + [With(Idle)];
      }
      if exists' {
        return Done, trace + [With(Idle)];
      }
      trace := trace + [With(NotMember(user))];
      var failed := SAdd(user, add);
      if failed {
        return Failed, trace + [With(Idle)];
      }
      trace := trace + [With(Added(user))];
      failed := Decr(user, decr);
      trace := trace + [With(Idle)];
      return if failed then Failed else Done, trace;
    }
  }

  // ----- overselling

  function Count(clients: seq<Client>, p: Client -> bool): nat {
    var n := |clients|;
    if n == 0 then 0 else Count(clients[..n - 1], p) + if p(clients[n - 1]) then 1 else 0
  }

  lemma {:induction false} CountUpdate(clients: seq<Client>, c: nat, client: Client, p: Client -> bool)
    requires c < |clients|
    ensures Count(clients[c := client], p) ==
      Count(clients, p) - (if p(clients[c]) then 1 else 0) + (if p(client) then 1 else 0)
    ensures Count(clients, p) <= |clients| && Count(clients[c := client], p) <= |clients|
  {
    var n := |clients|;
    if c < n - 1 {
      CountUpdate(clients[..n - 1], c, client, p);
      assert clients[c := client][..n - 1] == clients[..n - 1][c := client];
    } else {
      CountBound(clients[..n - 1], p);
      assert clients[c := client][..n - 1] == clients[..n - 1];
    }
  }

  lemma {:induction false} CountBound(clients: seq<Client>, p: Client -> bool)
    ensures Count(clients, p) <= |clients|
    ensures (forall c :: 0 <= c < |clients| ==> !p(clients[c])) ==> Count(clients, p) == 0
  {
    if clients != [] {
      CountBound(clients[..|clients| - 1], p);
    }
  }

  function Busy(): Client -> bool {
    (client: Client) => client != Idle
  }

  /** Every client behind the stock check may still take one item. */
  ghost predicate Bounded(s: State, k: nat, stock: int) {
    && |s.clients| == k && s.stock + |s.sold| == stock
    && s.stock - Count(s.clients, Busy()) >= 1 - k
  }

  lemma {:induction false} BoundedStep(s: State, s': State, k: nat, stock: int)
    requires Bounded(s, k, stock) && Next(s, s')
    ensures Bounded(s', k, stock)
  {
    var c :| 0 <= c < |s.clients| && Step(s, s', c);
    StepMovesOne(s, s', c);
    CountUpdate(s.clients, c, s'.clients[c], Busy());
  }

  lemma {:induction false} BoundedAt(states: seq<State>, k: nat, stock: nat, i: nat)
    requires Run(states, k, stock) && k > 0 && i < |states|
    ensures Bounded(states[i], k, stock)
  {
    if i == 0 {
      CountBound(states[0].clients, Busy());
    } else {
      BoundedAt(states, k, stock, i - 1);
      assert Next(states[i - 1], states[i - 1 + 1]);
      BoundedStep(states[i - 1], states[i], k, stock);
    }
  }

  /** In every run of k clients the items taken are exactly the executed Decr commands, and at most
      k - 1 items are taken that were not there. */
  lemma OversellIsBounded(states: seq<State>, k: nat, stock: nat)
    requires Run(states, k, stock) && k > 0
    ensures forall i :: 0 <= i < |states| ==> states[i].stock + |states[i].sold| == stock && states[i].stock >= 1 - k
  {
    forall i | 0 <= i < |states|
      ensures Bounded(states[i], k, stock)
    {
      BoundedAt(states, k, stock, i);
    }
  }

  // ----- selling to one user

  /** The clients that found `u` not to be a member and may still take an item for it. */
  function Cleared(u: string): Client -> bool {
    (client: Client) => (client.NotMember? || client.Added?) && client.user == u
  }

  /** Once `u` is a member no further client is cleared for it. */
  ghost predicate UserBounded(s: State, k: nat, u: string) {
    && |s.clients| == k
    && (u in s.members ==> multiset(s.sold)[u] + Count(s.clients, Cleared(u)) <= k)
    && (u !in s.members ==> u !in s.sold && forall c :: 0 <= c < k ==> s.clients[c] != Added(u))
  }

  lemma {:induction false} UserBoundedStep(s: State, s': State, k: nat, u: string)
    requires UserBounded(s, k, u) && Next(s, s')
    ensures UserBounded(s', k, u)
  {
    var c :| 0 <= c < |s.clients| && Step(s, s', c);
    StepMovesOne(s, s', c);
    CountUpdate(s.clients, c, s'.clients[c], Cleared(u));
    if u in s'.members && u !in s.members {
      assert s'.sold == s.sold;
    }
  }

  lemma {:induction false} UserBoundedAt(states: seq<State>, k: nat, stock: int, u: string, i: nat)
    requires Run(states, k, stock) && i < |states|
    ensures UserBounded(states[i], k, u)
  {
    if i > 0 {
      UserBoundedAt(states, k, stock, u, i - 1);
      assert Next(states[i - 1], states[i - 1 + 1]);
      UserBoundedStep(states[i - 1], states[i], k, u);
    }
  }

  /** In every run of k clients no user is sold more than k items. */
  lemma {:induction false} OneUserIsBounded(states: seq<State>, k: nat, stock: int, u: string)
    requires Run(states, k, stock)
    ensures forall i :: 0 <= i < |states| ==> multiset(states[i].sold)[u] <= k
  {
    forall i | 0 <= i < |states|
      ensures multiset(states[i].sold)[u] <= k
    {
      UserBoundedAt(states, k, stock, u, i);
    }
  }

  /** No run serves the empty user. */
  ghost predicate Named(s: State) {
    && "" !in s.members && "" !in s.sold
    && forall c :: 0 <= c < |s.clients| && s.clients[c] != Idle ==> s.clients[c].user != ""
  }

  lemma {:induction false} NamedStep(s: State, s': State, c: nat)
    requires Named(s) && c < |s.clients| && Step(s, s', c)
    ensures Named(s')
  {
    StepMovesOne(s, s', c);
    assert s.clients[c] == Idle && s'.clients[c] != Idle ==> s'.clients[c].user != "";
  }

  lemma {:induction false} NamedAt(states: seq<State>, k: nat, stock: int, i: nat)
    requires Run(states, k, stock) && i < |states|
    ensures Named(states[i])
  {
    if i > 0 {
      NamedAt(states, k, stock, i - 1);
      assert Next(states[i - 1], states[i - 1 + 1]);
      var c: nat :| c < |states[i - 1].clients| && Step(states[i - 1], states[i], c);
      NamedStep(states[i - 1], states[i], c);
    }
  }

  // ----- both bounds are reached

  ghost predicate Reachable(s: State, k: nat, stock: int) {
    exists states :: Run(states, k, stock) && states[|states| - 1] == s
  }

  lemma {:induction false} ReachNext(s: State, s': State, c: nat, k: nat, stock: int)
    requires Reachable(s, k, stock) && c < |s.clients| && Step(s, s', c)
    ensures Reachable(s', k, stock)
  {
    var states :| Run(states, k, stock) && states[|states| - 1] == s;
    assert Next(s, s');
    assert Run(states + [s'], k, stock);
  }

  /** Nobody is being served, and `sold` was sold so far. */
  function AtRest(k: nat, stock: int, sold: seq<string>): State {
    State(stock, ToSet(sold), seq(k, _ => Idle), sold)
  }

  lemma {:induction false} SellOne(k: nat, stock: int, sold: seq<string>, left: int, u: string)
    requires k > 0 && left > 0 && u != "" && u !in sold && Reachable(AtRest(k, left, sold), k, stock)
    ensures Reachable(AtRest(k, left - 1, sold + [u]), k, stock)
  {
    var s0 := AtRest(k, left, sold);
    var s1 := Moved(s0, 0, GotStock(u));
    var s2 := Moved(s1, 0, NotMember(u));
    var s3 := Moved(s2.(members := s2.members + {u}), 0, Added(u));
    var s4 := AtRest(k, left - 1, sold + [u]);
    assert s4 == Moved(s3.(stock := s3.stock - 1, sold := s3.sold + [u]), 0, Idle);
    ReachNext(s0, s1, 0, k, stock);
    ReachNext(s1, s2, 0, k, stock);
    ReachNext(s2, s3, 0, k, stock);
    ReachNext(s3, s4, 0, k, stock);
  }

  lemma {:induction false} SellOneByOne(k: nat, stock: int, users: seq<string>)
    requires k > 0 && stock >= |users| && "" !in users && NoRepeats(users)
    ensures Reachable(AtRest(k, stock - |users|, users), k, stock)
    decreases |users|
  {
    var n := |users|;
    if n == 0 {
      assert Run([AtRest(k, stock, [])], k, stock);
    } else {
      SellOneByOne(k, stock, users[..n - 1]);
      assert users == users[..n - 1] + [users[n - 1]];
      SellOne(k, stock, users[..n - 1], stock - n + 1, users[n - 1]);
    }
  }

  function ClientAt(user: string, phase: nat): Client {
    if phase == 1 then GotStock(user) else if phase == 2 then NotMember(user) else if phase == 3 then Added(user) else Idle
  }

  /** With one item left, all clients march through the commands together: the first `i` are one
      phase ahead. */
  function March(sold: seq<string>, users: seq<string>, phase: nat, i: nat): State
    requires i <= |users|
  {
    var added := if phase == 2 then users[..i] else if phase > 2 then users else [];
    var taken := if phase == 3 then users[..i] else if phase > 3 then users else [];
    State(1 - |taken|, ToSet(sold + added),
      seq(|users|, c requires 0 <= c < |users| => ClientAt(users[c], if c < i then phase + 1 else phase)),
      sold + taken)
  }

  ghost predicate New(sold: seq<string>, users: seq<string>) {
    forall u :: u in users ==> u != "" && u !in sold
  }

  lemma {:induction false} MarchStep(sold: seq<string>, users: seq<string>, phase: nat, i: nat)
    requires New(sold, users) && phase < 4 && i < |users|
    ensures Step(March(sold, users, phase, i), March(sold, users, phase, i + 1), i)
  {
    var s, s' := March(sold, users, phase, i), March(sold, users, phase, i + 1);
    assert users[..i + 1] == users[..i] + [users[i]];
    assert s'.clients == s.clients[i := ClientAt(users[i], phase + 1)];
    if phase == 0 {
      assert users[i] in users && s' == Moved(s, i, GotStock(users[i]));
    } else if phase == 2 {
      assert s'.members == s.members + {users[i]};
    }
  }

  lemma {:induction false} MarchRun(stock: int, sold: seq<string>, users: seq<string>, phase: nat, i: nat)
    requires New(sold, users) && phase <= 4 && i <= |users| && (phase == 4 ==> i == 0)
    requires Reachable(AtRest(|users|, 1, sold), |users|, stock)
    ensures Reachable(March(sold, users, phase, i), |users|, stock)
    decreases phase, i
  {
    if i > 0 {
      MarchRun(stock, sold, users, phase, i - 1);
      MarchStep(sold, users, phase, i - 1);
      ReachNext(March(sold, users, phase, i - 1), March(sold, users, phase, i), i - 1, |users|, stock);
    } else if phase > 0 {
      MarchRun(stock, sold, users, phase - 1, |users|);
      assert users[..|users|] == users && users[..0] == [];
      assert March(sold, users, phase - 1, |users|) == March(sold, users, phase, 0);
    } else {
      assert March(sold, users, 0, 0) == AtRest(|users|, 1, sold);
    }
  }

  /** Once all items but one are sold, k clients can sell that one to any k users, even k times to one. */
  lemma {:induction false} OversellHappens(earlier: seq<string>, users: seq<string>)
    requires users != [] && "" !in earlier && NoRepeats(earlier) && New(earlier, users)
    ensures Reachable(AtRest(|users|, 1 - |users|, earlier + users), |users|, |earlier| + 1)
  {
    var k, stock := |users|, |earlier| + 1;
    SellOneByOne(k, stock, earlier);
    MarchRun(stock, earlier, users, 4, 0);
    assert March(earlier, users, 4, 0) == AtRest(k, 1 - k, earlier + users);
  }

  function Name(n: nat): string {
    seq(n, _ => 'u')
  }

  lemma {:induction false} CountCopies(n: nat, u: string)
    ensures multiset(seq(n, _ => u))[u] == n
  {
    if n > 0 {
      CountCopies(n - 1, u);
      assert seq(n, _ => u) == seq(n - 1, _ => u) + [u];
    }
  }

  /** From any stock, k clients can reach both bounds in one run, whoever the one user is. */
  lemma {:induction false} BoundsAreReached(k: nat, stock: nat, u: string)
    requires k > 0 && stock > 0 && u != ""
    ensures exists s :: Reachable(s, k, stock) && s.stock == 1 - k && multiset(s.sold)[u] == k
  {
    var earlier, users := seq(stock - 1, i requires 0 <= i => Name(|u| + i + 1)), seq(k, _ => u);
    assert forall i :: 0 <= i < stock - 1 ==> earlier[i] == Name(|u| + i + 1) && |earlier[i]| == |u| + i + 1;
    OversellHappens(earlier, users);
    CountCopies(k, u);
    var s := AtRest(k, 1 - k, earlier + users);
    assert multiset(s.sold)[u] == multiset(earlier)[u] + multiset(users)[u] && u !in earlier;
    assert Reachable(s, k, stock);
  }

  // ----- when the checks of MSRedis are enough

  ghost predicate NeverOversold(k: nat, stock: nat) {
    forall states: seq<State> :: Run(states, k, stock) ==> forall i :: 0 <= i < |states| ==> states[i].stock >= 0
  }

  ghost predicate NeverTwice(k: nat, stock: nat) {
    forall states: seq<State> :: Run(states, k, stock) ==> forall i :: 0 <= i < |states| ==> NoRepeats(states[i].sold)
  }

  /** Without clients or without goods nothing ever changes. */
  lemma {:induction false} NothingHappens(states: seq<State>, k: nat, stock: nat, i: nat)
    requires Run(states, k, stock) && (k == 0 || stock == 0) && i < |states|
    ensures states[i] == states[0]
  {
    if i > 0 {
      NothingHappens(states, k, stock, i - 1);
      assert Next(states[i - 1], states[i - 1 + 1]);
    }
  }

  lemma OneClientIsSafe(states: seq<State>, k: nat, stock: nat, i: nat)
    requires Run(states, k, stock) && (k <= 1 || stock == 0) && i < |states|
    ensures states[i].stock >= 0 && NoRepeats(states[i].sold)
  {
    if k == 0 || stock == 0 {
      NothingHappens(states, k, stock, i);
    } else {
      OversellIsBounded(states, k, stock);
      forall j, l | 0 <= j < l < |states[i].sold|
        ensures states[i].sold[j] != states[i].sold[l]
      {
        if states[i].sold[j] == states[i].sold[l] {
          SoldTwice(states[i].sold, j, l);
          OneUserIsBounded(states, k, stock, states[i].sold[j]);
          assert false;
        }
      }
    }
  }

  lemma SoldTwice(sold: seq<string>, j: nat, l: nat)
    requires j < l < |sold| && sold[j] == sold[l]
    ensures multiset(sold)[sold[j]] >= 2
  {
    assert sold == sold[..l] + sold[l..];
    assert sold[j] in sold[..l] && sold[j] in sold[l..];
  }

  lemma NoRepeatsCount(sold: seq<string>, u: string)
    requires NoRepeats(sold)
    ensures multiset(sold)[u] <= 1
  {
    if i :| 0 <= i < |sold| && sold[i] == u {
      assert sold == sold[..i] + [u] + sold[i + 1..];
      assert u !in sold[..i] && u !in sold[i + 1..];
    }
  }

  /** MSRedis never sells what is not there exactly if there is at most one client, or nothing to sell. */
  lemma NeverOversoldIff(k: nat, stock: nat)
    ensures NeverOversold(k, stock) <==> k <= 1 || stock == 0
  {
    if k <= 1 || stock == 0 {
      forall states: seq<State>, i | Run(states, k, stock) && 0 <= i < |states|
        ensures states[i].stock >= 0
      {
        OneClientIsSafe(states, k, stock, i);
      }
    } else {
      BoundsAreReached(k, stock, Name(1));
    }
  }

  /** It never sells one user two items under exactly the same condition. */
  lemma {:induction false} NeverTwiceIff(k: nat, stock: nat)
    ensures NeverTwice(k, stock) <==> k <= 1 || stock == 0
  {
    if k <= 1 || stock == 0 {
      forall states: seq<State>, i | Run(states, k, stock) && 0 <= i < |states|
        ensures NoRepeats(states[i].sold)
      {
        OneClientIsSafe(states, k, stock, i);
      }
    } else {
      var u := Name(1);
      BoundsAreReached(k, stock, u);
      var s :| Reachable(s, k, stock) && multiset(s.sold)[u] == k;
      if NoRepeats(s.sold) {
        NoRepeatsCount(s.sold, u);
        assert false;
      }
    }
  }

  // ----- one item for each user

  /** Client `c` is the only one that may be running for user `u`. */
  ghost predicate Alone(s: State, c: nat, u: string) {
    forall d :: 0 <= d < |s.clients| && d != c && s.clients[d] != Idle ==> s.clients[d].user != u
  }

  /** A run starts only while no other client runs for the same user. */
  ghost predicate ExclusiveRun(states: seq<State>, k: nat, stock: int) {
    && states != [] && Init(states[0], k, stock)
    && forall i :: 0 <= i < |states| - 1 ==> ExclusiveNext(states[i], states[i + 1])
  }

  ghost predicate ExclusiveNext(s: State, s': State) {
    exists c: nat :: ExclusiveStep(s, s', c)
  }

  ghost predicate ExclusiveStep(s: State, s': State, c: nat) {
    c < |s.clients| && Step(s, s', c) && (c < |s'.clients| && s'.clients[c].GotStock? ==> Alone(s, c, s'.clients[c].user))
  }

  ghost predicate OneClientPerUser(s: State) {
    forall c :: 0 <= c < |s.clients| && s.clients[c] != Idle ==> Alone(s, c, s.clients[c].user)
  }

  ghost predicate OncePerUser(s: State) {
    && OneClientPerUser(s)
    && NoRepeats(s.sold)
    && (forall u :: u in s.sold ==> u in s.members)
    && (forall c :: 0 <= c < |s.clients| && s.clients[c].NotMember? ==> s.clients[c].user !in s.members)
    && (forall c :: 0 <= c < |s.clients| && s.clients[c].Added? ==> s.clients[c].user in s.members && s.clients[c].user !in s.sold)
  }

  lemma {:induction false} OneClientPerUserStep(s: State, s': State, c: nat)
    requires OneClientPerUser(s) && ExclusiveStep(s, s', c)
    ensures OneClientPerUser(s')
  {
    StepMovesOne(s, s', c);
  }

  lemma {:induction false} OncePerUserStep(s: State, s': State)
    requires OncePerUser(s) && ExclusiveNext(s, s')
    ensures OncePerUser(s')
  {
    var c: nat :| ExclusiveStep(s, s', c);
    StepMovesOne(s, s', c);
    OneClientPerUserStep(s, s', c);
  }

  lemma {:induction false} OncePerUserAt(states: seq<State>, k: nat, stock: int, i: nat)
    requires ExclusiveRun(states, k, stock) && i < |states|
    ensures OncePerUser(states[i])
  {
    if i > 0 {
      OncePerUserAt(states, k, stock, i - 1);
      assert ExclusiveNext(states[i - 1], states[i - 1 + 1]);
      OncePerUserStep(states[i - 1], states[i]);
    }
  }

  /** If no user is served by two clients at once, no user is sold two items. */
  lemma NobodyBuysTwice(states: seq<State>, k: nat, stock: int)
    requires ExclusiveRun(states, k, stock)
    ensures forall i :: 0 <= i < |states| ==> NoRepeats(states[i].sold)
  {
    forall n | 0 <= n < |states|
      ensures OncePerUser(states[n])
    {
      OncePerUserAt(states, k, stock, n);
    }
  }
}
