/** Roster management of the server (src/network/server.hpp).

    The roster `clients` is the `std::deque` of connection handles, `null`
    standing for a reset `shared_ptr`. The three application hooks are
    recorded in ghost traces: `disconnected` lists the arguments of
    `on_client_disconnect`, `handled` the messages given to `on_message`,
    and `deliveries` every `client->send(message)` the server issues (that
    call only posts a closure onto the connection's event loop, so the
    server's step ends there). The answer of `on_client_connect` is a
    parameter of the accept handler. */
module Servers {
  import opened Common
  import opened Messages
  import opened Queues
  import opened Connections

  /** One `client->send(message)` issued by the server. */
  datatype Delivery<T> = Delivery(to: Connection<T>, msg: Message<T>)

  /** `client && client->is_connected()`. */
  predicate Reachable<T>(c: Connection?<T>)
    reads c
  {
    c != null && c.open
  }

  /** `std::remove(begin, end, x)` followed by `erase`: the entries other
      than `x`, in their original order. */
  function Without<X(==)>(s: seq<X>, x: X): seq<X>
  {
    if s == [] then []
    else Without(s[..|s| - 1], x) + (if s[|s| - 1] == x then [] else [s[|s| - 1]])
  }

  /** The reachable entries, in roster order. */
  function Live<T>(s: seq<Connection?<T>>): seq<Connection?<T>>
    reads s
  {
    if s == [] then []
    else Live(s[..|s| - 1]) + (if Reachable(s[|s| - 1]) then [s[|s| - 1]] else [])
  }

  /** The unreachable entries, in roster order. */
  function Dead<T>(s: seq<Connection?<T>>): seq<Connection?<T>>
    reads s
  {
    if s == [] then []
    else Dead(s[..|s| - 1]) + (if Reachable(s[|s| - 1]) then [] else [s[|s| - 1]])
  }

  /** The roster after the `send_all` loop has reset every unreachable
      entry in place. */
  function Nulled<T>(s: seq<Connection?<T>>): (r: seq<Connection?<T>>)
    reads s
    ensures |r| == |s|
  {
    if s == [] then []
    else Nulled(s[..|s| - 1]) + [if Reachable(s[|s| - 1]) then s[|s| - 1] else null]
  }

  /** The sends that `send_all(m, exc)` issues: one per reachable entry
      other than `exc`, in roster order. */
  function Broadcast<T>(s: seq<Connection?<T>>, exc: Connection?<T>, m: Message<T>): seq<Delivery<T>>
    reads s
  {
    if s == [] then []
    else
      var c := s[|s| - 1];
      Broadcast(s[..|s| - 1], exc, m) + (if c != null && c.open && c != exc then [Delivery(c, m)] else [])
  }

  /** The entries of `s` that have an admission number come in increasing
      admission order (reset handles aside). */
  ghost predicate Ascending<T>(s: seq<Connection?<T>>, rank: map<Connection<T>, nat>)
  {
    s == [] ||
    (var front, last := s[..|s| - 1], s[|s| - 1];
     Ascending(front, rank) &&
     (last in rank ==> forall d :: d in front && d in rank ==> rank[d] < rank[last]))
  }

  lemma {:induction false} WithoutMembers<X>(s: seq<X>, x: X)
    ensures forall y :: y in Without(s, x) ==> y in s && y != x
    ensures forall y :: y in s && y != x ==> y in Without(s, x)
  {
    if s != [] {
      WithoutMembers(s[..|s| - 1], x);
      assert s == s[..|s| - 1] + [s[|s| - 1]];
    }
  }

  /** Erase-remove keeps the relative order: it distributes over
      concatenation. */
  lemma {:induction false} WithoutConcat<X>(a: seq<X>, b: seq<X>, x: X)
    ensures Without(a + b, x) == Without(a, x) + Without(b, x)
  {
    if b != [] {
      assert (a + b)[..|a + b| - 1] == a + b[..|b| - 1];
      WithoutConcat(a, b[..|b| - 1], x);
    } else {
      assert a + b == a;
    }
  }

  /** Removing a value that does not occur changes nothing. */
  lemma {:induction false} WithoutAbsent<X>(s: seq<X>, x: X)
    requires x !in s
    ensures Without(s, x) == s
  {
    if s != [] {
      WithoutAbsent(s[..|s| - 1], x);
      assert s == s[..|s| - 1] + [s[|s| - 1]];
    }
  }

  lemma {:induction false} LiveMembers<T>(s: seq<Connection?<T>>)
    ensures forall c :: c in Live(s) ==> c in s && Reachable(c)
    ensures forall c :: c in s && Reachable(c) ==> c in Live(s)
  {
    if s != [] {
      LiveMembers(s[..|s| - 1]);
      assert s == s[..|s| - 1] + [s[|s| - 1]];
    }
  }

  lemma {:induction false} DeadMembers<T>(s: seq<Connection?<T>>)
    ensures forall c :: c in Dead(s) ==> c in s && !Reachable(c)
    ensures forall c :: c in s && !Reachable(c) ==> c in Dead(s)
  {
    if s != [] {
      DeadMembers(s[..|s| - 1]);
      assert s == s[..|s| - 1] + [s[|s| - 1]];
    }
  }

  /** Pruning keeps the roster order: Live distributes over concatenation. */
  lemma {:induction false} LiveConcat<T>(a: seq<Connection?<T>>, b: seq<Connection?<T>>)
    ensures Live(a + b) == Live(a) + Live(b)
  {
    if b != [] {
      assert (a + b)[..|a + b| - 1] == a + b[..|b| - 1];
      LiveConcat(a, b[..|b| - 1]);
    } else {
      assert a + b == a;
    }
  }

  /** Every entry is live or dead, never both: Live and Dead split the
      roster. */
  lemma {:induction false} LiveDeadSplit<T>(s: seq<Connection?<T>>)
    ensures |Live(s)| + |Dead(s)| == |s|
    ensures Dead(s) == [] ==> Live(s) == s
  {
    if s != [] {
      LiveDeadSplit(s[..|s| - 1]);
      assert s == s[..|s| - 1] + [s[|s| - 1]];
    }
  }

  /** Nulling the dead entries in place and then erasing every `null`
      leaves exactly the live entries, in roster order. */
  lemma {:induction false} PruneNulled<T>(s: seq<Connection?<T>>)
    ensures Without(Nulled(s), null) == Live(s)
  {
    if s != [] {
      PruneNulled(s[..|s| - 1]);
      var c := s[|s| - 1];
      WithoutConcat(Nulled(s[..|s| - 1]), [if Reachable(c) then c else null], null);
      assert [if Reachable(c) then c else null][..0] == [];
    }
  }

  /** Each roster entry that is reachable and is not `exc` receives the
      message once per occurrence in the roster; no other connection
      receives anything. */
  lemma {:induction false} BroadcastCount<T>(s: seq<Connection?<T>>, exc: Connection?<T>, m: Message<T>, c: Connection<T>)
    ensures multiset(Broadcast(s, exc, m))[Delivery(c, m)] ==
            if c.open && c != exc then multiset(s)[c] else 0
  {
    if s != [] {
      var front := s[..|s| - 1];
      BroadcastCount(front, exc, m, c);
      assert s == front + [s[|s| - 1]];
      assert multiset(s) == multiset(front) + multiset{s[|s| - 1]};
    }
  }

  /** Each unreachable roster entry is reported once per occurrence in the
      roster; no reachable connection is reported. */
  lemma {:induction false} DeadCount<T>(s: seq<Connection?<T>>, c: Connection<T>)
    ensures multiset(Dead(s))[c] == if c.open then 0 else multiset(s)[c]
  {
    if s != [] {
      var front := s[..|s| - 1];
      DeadCount(front, c);
      assert s == front + [s[|s| - 1]];
      assert multiset(s) == multiset(front) + multiset{s[|s| - 1]};
    }
  }

  /** A broadcast sends `m` only, only to reachable roster entries, and
      never to `exc`. */
  lemma {:induction false} BroadcastTargets<T>(s: seq<Connection?<T>>, exc: Connection?<T>, m: Message<T>)
    ensures forall d :: d in Broadcast(s, exc, m) ==> d.msg == m && d.to in s && d.to.open && d.to != exc
  {
    if s != [] {
      BroadcastTargets(s[..|s| - 1], exc, m);
      assert s == s[..|s| - 1] + [s[|s| - 1]];
    }
  }

  /** In admission order, any two ranked entries compare by position. */
  lemma {:induction false} AscendingPairwise<T>(s: seq<Connection?<T>>, rank: map<Connection<T>, nat>)
    requires Ascending(s, rank)
    ensures forall i, j :: 0 <= i < j < |s| && s[i] in rank && s[j] in rank ==> rank[s[i]] < rank[s[j]]
  {
    if s != [] {
      var front := s[..|s| - 1];
      AscendingPairwise(front, rank);
      forall i, j | 0 <= i < j < |s| && s[i] in rank && s[j] in rank ensures rank[s[i]] < rank[s[j]] {
        if j < |s| - 1 {
          assert s[i] == front[i] && s[j] == front[j];
        } else {
          assert s[i] == front[i];
          assert s[i] in front;
        }
      }
    }
  }

  /** In admission order no ranked connection occurs twice. */
  lemma {:induction false} AscendingDistinct<T>(s: seq<Connection?<T>>, rank: map<Connection<T>, nat>, c: Connection<T>)
    requires Ascending(s, rank) && c in rank
    ensures multiset(s)[c] <= 1
  {
    if s != [] {
      var front := s[..|s| - 1];
      AscendingDistinct(front, rank, c);
      assert s == front + [s[|s| - 1]];
      assert multiset(s) == multiset(front) + multiset{s[|s| - 1]};
    }
  }

  /** When no connection occurs twice, `send_all(m, exc)` sends `m` exactly
      once to each reachable entry other than `exc`. */
  lemma BroadcastExactlyOnce<T>(s: seq<Connection?<T>>, rank: map<Connection<T>, nat>,
                                exc: Connection?<T>, m: Message<T>, c: Connection<T>)
    requires Ascending(s, rank) && c in rank && c in s && c.open && c != exc
    ensures multiset(Broadcast(s, exc, m))[Delivery(c, m)] == 1
  {
    BroadcastCount(s, exc, m, c);
    AscendingDistinct(s, rank, c);
  }

  /** A connection admitted after every entry of the roster may join its
      back. */
  lemma AppendAscending<T>(s: seq<Connection?<T>>, rank: map<Connection<T>, nat>, c: Connection<T>)
    requires Ascending(s, rank) && c in rank
    requires forall d :: d in s && d in rank ==> rank[d] < rank[c]
    ensures Ascending(s + [c], rank)
  {
  }

  /** Admission order depends only on the admission numbers of the entries. */
  lemma {:induction false} AscendingFrame<T>(s: seq<Connection?<T>>, r1: map<Connection<T>, nat>, r2: map<Connection<T>, nat>)
    requires Ascending(s, r1)
    requires forall d :: d in s ==> (d in r1 <==> d in r2) && (d in r1 ==> r1[d] == r2[d])
    ensures Ascending(s, r2)
  {
    if s != [] {
      var front := s[..|s| - 1];
      assert forall d :: d in front ==> d in s;
      AscendingFrame(front, r1, r2);
    }
  }

  /** Entry `k` of the nulled roster is entry `k` of the roster if that is
      reachable, and `null` otherwise. */
  lemma {:induction false} NulledAt<T>(s: seq<Connection?<T>>)
    ensures forall k :: 0 <= k < |s| ==> Nulled(s)[k] == if Reachable(s[k]) then s[k] else null
  {
    if s != [] {
      NulledAt(s[..|s| - 1]);
    }
  }

  /** Nulling in place keeps only reachable entries of the roster, and
      resets. */
  lemma NulledMembers<T>(s: seq<Connection?<T>>)
    ensures forall c :: c in Nulled(s) && c != null ==> c in s && Reachable(c)
  {
  }

  /** Nulling in place keeps the admission order. */
  lemma {:induction false} NulledAscending<T>(s: seq<Connection?<T>>, rank: map<Connection<T>, nat>)
    requires Ascending(s, rank)
    ensures Ascending(Nulled(s), rank)
  {
    if s != [] {
      var front, last := s[..|s| - 1], s[|s| - 1];
      NulledAscending(front, rank);
      NulledMembers(front);
      var w := Nulled(front);
      assert (w + [if Reachable(last) then last else null])[..|w|] == w;
    }
  }

  /** Erasing entries keeps the admission order. */
  lemma {:induction false} WithoutAscending<T>(s: seq<Connection?<T>>, x: Connection?<T>, rank: map<Connection<T>, nat>)
    requires Ascending(s, rank)
    ensures Ascending(Without(s, x), rank)
  {
    if s != [] {
      var front, last := s[..|s| - 1], s[|s| - 1];
      WithoutAscending(front, x, rank);
      WithoutMembers(front, x);
      var w := Without(front, x);
      if last != x {
        assert Without(s, x) == w + [last];
        assert (w + [last])[..|w|] == w;
        if last in rank {
          forall d | d in w && d in rank
            ensures rank[d] < rank[last]
          {
            assert d in front;
          }
        }
      } else {
        assert Without(s, x) == w;
      }
    }
  }

  /** Pruning keeps the admission order. */
  lemma {:induction false} LiveAscending<T>(s: seq<Connection?<T>>, rank: map<Connection<T>, nat>)
    requires Ascending(s, rank)
    ensures Ascending(Live(s), rank)
  {
    if s != [] {
      var front, last := s[..|s| - 1], s[|s| - 1];
      LiveAscending(front, rank);
      LiveMembers(front);
      var w := Live(front);
      if Reachable(last) {
        assert Live(s) == w + [last];
        assert (w + [last])[..|w|] == w;
        if last in rank {
          forall d | d in w && d in rank
            ensures rank[d] < rank[last]
          {
            assert d in front;
          }
        }
      } else {
        assert Live(s) == w;
      }
    }
  }

  /** One step of the `send_all` walk: the summaries of a roster prefix
      grow by what the next entry contributes. */
  lemma WalkStep<T>(s: seq<Connection?<T>>, i: nat, exc: Connection?<T>, m: Message<T>)
    requires i < |s|
    ensures Nulled(s[..i + 1]) == Nulled(s[..i]) + [if Reachable(s[i]) then s[i] else null]
    ensures Dead(s[..i + 1]) == Dead(s[..i]) + (if Reachable(s[i]) then [] else [s[i]])
    ensures Broadcast(s[..i + 1], exc, m) ==
            Broadcast(s[..i], exc, m) + (if Reachable(s[i]) && s[i] != exc then [Delivery(s[i], m)] else [])
  {
    assert s[..i + 1][..i] == s[..i];
  }

  /** One iteration of the `send_all` loop: from the state after entry
      `i - 1`, entry `i` is still the original one, and resetting and
      reporting it when unreachable, or sending to it unless it is `exc`,
      gives the state after entry `i`. */
  lemma WalkAdvance<T>(roster: seq<Connection?<T>>, i: nat, exc: Connection?<T>, m: Message<T>,
                       entries: seq<Connection?<T>>, reported: seq<Connection?<T>>, sends: seq<Delivery<T>>)
    requires i < |roster|
    requires entries == Nulled(roster[..i]) + roster[i..]
    requires reported == Dead(roster[..i]) && sends == Broadcast(roster[..i], exc, m)
    ensures |entries| == |roster| && entries[i] == roster[i]
    ensures !Reachable(roster[i]) ==>
      && entries[i := null] == Nulled(roster[..i + 1]) + roster[i + 1..]
      && reported + [roster[i]] == Dead(roster[..i + 1])
      && sends == Broadcast(roster[..i + 1], exc, m)
    ensures Reachable(roster[i]) ==>
      && entries == Nulled(roster[..i + 1]) + roster[i + 1..]
      && reported == Dead(roster[..i + 1])
      && (roster[i] != exc ==> sends + [Delivery(roster[i], m)] == Broadcast(roster[..i + 1], exc, m))
      && (roster[i] == exc ==> sends == Broadcast(roster[..i + 1], exc, m))
  {
    WalkStep(roster, i, exc, m);
    var w := Nulled(roster[..i]);
    assert roster[i..] == [roster[i]] + roster[i + 1..];
    assert w + roster[i..] == w + [roster[i]] + roster[i + 1..];
  }

  /** The loop of `send_all(m, exc)`: walks the roster in order, resets each
      unreachable entry in place (reporting it) and sends `m` to every other
      entry except `exc`. `invalid` says whether any entry was reset. */
  method Walk<T>(roster: seq<Connection?<T>>, exc: Connection?<T>, m: Message<T>)
      returns (entries: seq<Connection?<T>>, invalid: bool,
               ghost reported: seq<Connection?<T>>, ghost sends: seq<Delivery<T>>)
    ensures entries == Nulled(roster)
    ensures invalid <==> Dead(roster) != []
    ensures reported == Dead(roster) && sends == Broadcast(roster, exc, m)
  {
    entries, invalid, reported, sends := roster, false, [], [];
    var i := 0;
    while i < |entries|
      invariant i <= |entries| == |roster|
      invariant entries == Nulled(roster[..i]) + roster[i..]
      invariant reported == Dead(roster[..i])
      invariant sends == Broadcast(roster[..i], exc, m)
      invariant invalid <==> reported != []
    {
      WalkAdvance(roster, i, exc, m, entries, reported, sends);
      var client := entries[i];
      if client == null || !client.open {
        reported := reported + [client];
        entries := entries[i := null];
        invalid := true;
      } else if client != exc {
        sends := sends + [Delivery(client, m)];
      }
      i := i + 1;
    }
    assert roster[..i] == roster;
  }

  class Server<T> {
    /** `m_clients`. */
    var clients: seq<Connection?<T>>
    /** `m_next_id`. */
    var nextId: ClientId
    /** `m_incoming`, shared with every connection of the server. */
    const inbox: Queue<Owned<T, Connection<T>>>
    /** The value-initialised tag `T{}` of a default message. */
    const zero: T

    /** How many connections `on_client_connect` has approved. */
    ghost var approvals: nat
    /** The admission number of each approved connection: the n-th
        approval gets n - 1. */
    ghost var admitted: map<Connection<T>, nat>
    /** An asynchronous accept is armed. */
    ghost var accepting: bool
    ghost var disconnected: seq<Connection?<T>>
    ghost var deliveries: seq<Delivery<T>>
    ghost var handled: seq<Owned<T, Connection<T>>>

    /** `s` holds only host connections of this server's inbox, each
        approved by `on_client_connect` and carrying an id that is its
        admission number modulo 2^32, in admission order; `m_next_id` is
        the number of approvals modulo 2^32. Reset handles may occur. */
    ghost predicate Roster(s: seq<Connection?<T>>)
      reads this`nextId, this`approvals, this`admitted, s
    {
      && nextId as int == approvals % 0x1_0000_0000
      && (forall c :: c in s && c != null ==>
            && c.role.HostSide? && c.inbox == inbox
            && c in admitted && admitted[c] < approvals
            && c.id as int == admitted[c] % 0x1_0000_0000)
      && Ascending(s, admitted)
    }

    /** Between calls the roster is well-formed and holds no reset handle. */
    ghost predicate Valid()
      reads this, clients
    {
      Roster(clients) && null !in clients
    }

    /** Until the counter wraps around, an id is the admission number, so
        ids increase strictly along the roster. */
    lemma IdsIncrease()
      requires Valid() && approvals <= 0x1_0000_0000
      ensures forall i, j :: 0 <= i < j < |clients| ==>
        clients[i] != null && clients[j] != null && clients[i].Id() < clients[j].Id()
    {
      AscendingPairwise(clients, admitted);
      forall i, j | 0 <= i < j < |clients|
        ensures clients[i] != null && clients[j] != null && clients[i].Id() < clients[j].Id()
      {
        assert clients[i] in clients && clients[j] in clients;
      }
    }

    /** The roster holds no connection twice, so `send_all(m, exc)` sends
        `m` exactly once to each reachable client other than `exc`. */
    lemma BroadcastOnce(exc: Connection?<T>, m: Message<T>, c: Connection<T>)
      requires Valid() && c in clients && c.open && c != exc
      ensures multiset(Broadcast(clients, exc, m))[Delivery(c, m)] == 1
    {
      BroadcastExactlyOnce(clients, admitted, exc, m, c);
    }

    /** The roster holds no connection twice, so `send_all` reports each
        unreachable client to `on_client_disconnect` exactly once. */
    lemma ReportedOnce(c: Connection<T>)
      requires Valid() && c in clients && !c.open
      ensures multiset(Dead(clients))[c] == 1
    {
      DeadCount(clients, c);
      AscendingDistinct(clients, admitted, c);
    }

    /** Resetting the unreachable entries in place keeps a roster
        well-formed. */
    lemma NulledRoster(s: seq<Connection?<T>>)
      requires Roster(s)
      ensures Roster(Nulled(s))
    {
      NulledMembers(s);
      NulledAscending(s, admitted);
    }

    twostate predicate TracesUnchanged()
      reads this
    {
      disconnected == old(disconnected) && deliveries == old(deliveries) && handled == old(handled)
    }

    constructor (zero: T)
      ensures Valid() && fresh(inbox) && inbox.contents == []
      ensures clients == [] && nextId == 0 && approvals == 0 && !accepting
      ensures disconnected == [] && deliveries == [] && handled == []
    {
      clients := [];
      nextId := 0;
      inbox := new Queue<Owned<T, Connection<T>>>();
      this.zero := zero;
      approvals := 0;
      admitted := map[];
      accepting := false;
      disconnected, deliveries, handled := [], [], [];
    }

    /** `wait_for_client()`: arms an asynchronous accept. */
    method WaitForClient()
      modifies this`accepting
      ensures accepting
    {
      accepting := true;
    }

    /** The accept handler of `wait_for_client`. On a successful accept a
        host connection is made; if `approve` (the answer of
        `on_client_connect`) holds, it gets the id `m_next_id`, the counter
        grows by one and the connection joins the back of the roster. A
        denied connection or a failed accept changes neither the roster nor
        the counter. The accept is armed again in every case. */
    method OnAccept(ok: bool, approve: bool)
      requires Valid() && accepting
      modifies this
      ensures Valid() && accepting && TracesUnchanged()
      ensures ok && approve ==>
        && |clients| == |old(clients)| + 1
        && clients[..|old(clients)|] == old(clients)
        && nextId == Increment32(old(nextId)) && approvals == old(approvals) + 1
        && (var c := clients[|clients| - 1];
            c != null && fresh(c) && c.id == old(nextId) && c.id as int == old(approvals) % 0x1_0000_0000
            && c.accepted && c.open && c.reading && c.readOp == ReadingHeader
            && c.Valid() && fresh(c.outgoing) && c.outgoing.contents == [] && c.writeOp == NoWrite)
      ensures !(ok && approve) ==>
        clients == old(clients) && nextId == old(nextId) && approvals == old(approvals)
    {
      if ok {
        var connection := new Connection<T>.Host(inbox, zero);
        if approve {
          var id := nextId;
          connection.Accept(id);
          Admit(connection);
        }
      }
      WaitForClient();
    }

    /** The bookkeeping of an approval: the connection, which already
        carries the id `m_next_id`, gets the next admission number and joins
        the back of the roster, and the counter grows by one. */
    method Admit(connection: Connection<T>)
      requires Valid() && connection !in clients
      requires connection.role.HostSide? && connection.inbox == inbox && connection.id == nextId
      modifies this`clients, this`nextId, this`approvals, this`admitted
      ensures Valid()
      ensures clients == old(clients) + [connection]
      ensures nextId == Increment32(old(nextId)) && approvals == old(approvals) + 1
    {
      ghost var rank := admitted[connection := approvals];
      AscendingFrame(clients, admitted, rank);
      AppendAscending(clients, rank, connection);
      admitted := rank;
      nextId := Increment32(nextId);
      approvals := approvals + 1;
      clients := clients + [connection];
    }

    /** `remove_clients(x)`: erases every entry equal to `x` and keeps the
        others in their order. */
    method RemoveClients(x: Connection?<T>)
      requires Roster(clients)
      modifies this`clients
      ensures Roster(clients) && clients == Without(old(clients), x)
      ensures x !in clients
    {
      WithoutMembers(clients, x);
      WithoutAscending(clients, x, admitted);
      var kept: seq<Connection?<T>> := [];
      var i := 0;
      while i < |clients|
        invariant i <= |clients|
        invariant kept == Without(clients[..i], x)
      {
        assert clients[..i + 1][..i] == clients[..i];
        if clients[i] != x {
          kept := kept + [clients[i]];
        }
        i := i + 1;
      }
      assert clients[..i] == clients;
      clients := kept;
    }

    /** `send(client, m)`. A reachable client is sent `m`. Otherwise
        `on_client_disconnect(client)` runs, the local handle is reset and
        `remove_clients` is called with the reset handle, which erases
        only `null` entries: the roster does not change and the dead
        client stays in it. */
    method Send(client: Connection?<T>, m: Message<T>)
      requires Valid()
      modifies this`clients, this`disconnected, this`deliveries
      ensures Valid() && clients == old(clients)
      ensures old(Reachable(client)) ==>
        deliveries == old(deliveries) + [Delivery(client, m)] && disconnected == old(disconnected)
      ensures !old(Reachable(client)) ==>
        disconnected == old(disconnected) + [client] && deliveries == old(deliveries)
    {
      if client != null && client.open {
        deliveries := deliveries + [Delivery(client, m)];
      } else {
        disconnected := disconnected + [client];
        var handle: Connection?<T> := client;
        handle := null;
        WithoutAbsent(clients, handle);
        RemoveClients(handle);
      }
    }

    /** `send` as evidently intended: a dead client is erased from the
        roster before its handle is reset. */
    method SendPruning(client: Connection?<T>, m: Message<T>)
      requires Valid()
      modifies this`clients, this`disconnected, this`deliveries
      ensures Valid()
      ensures old(Reachable(client)) ==>
        deliveries == old(deliveries) + [Delivery(client, m)] &&
        disconnected == old(disconnected) && clients == old(clients)
      ensures !old(Reachable(client)) ==>
        disconnected == old(disconnected) + [client] && deliveries == old(deliveries) &&
        clients == Without(old(clients), client) && client !in clients
    {
      if client != null && client.open {
        deliveries := deliveries + [Delivery(client, m)];
      } else {
        disconnected := disconnected + [client];
        ghost var roster := clients;
        RemoveClients(client);
        WithoutMembers(roster, client);
      }
    }

    /** `send_all(m, exc)`: walks the roster in order; an unreachable entry
        is reported to `on_client_disconnect` and reset in place (before the
        exclusion is checked, so a dead `exc` is pruned too); every other
        entry except `exc` is sent `m`. If any entry was reset, the reset
        entries are erased, leaving the reachable entries in roster order. */
    method SendAll(m: Message<T>, exc: Connection?<T>)
      requires Valid()
      modifies this`clients, this`disconnected, this`deliveries
      ensures Valid()
      ensures clients == old(Live(clients))
      ensures disconnected == old(disconnected) + old(Dead(clients))
      ensures deliveries == old(deliveries) + old(Broadcast(clients, exc, m))
    {
      NulledRoster(clients);
      PrunedRoster(clients);
      var entries, invalid, reported, sends := Walk(clients, exc, m);
      disconnected, deliveries, clients := disconnected + reported, deliveries + sends, entries;
      if invalid {
        RemoveClients(null);
      }
    }

    /** `process(max)`: hands the messages at the front of the inbox to
        `on_message`, in order, until `max` have been handled (no bound when
        `max` is absent: the largest `size_t`) or the inbox is empty. */
    method Process(max: Option<nat>)
      modifies this`handled, inbox
      ensures var k := Min(if max.Some? then max.value else SizeMax, |old(inbox.contents)|);
        && handled == old(handled) + old(inbox.contents)[..k]
        && inbox.contents == old(inbox.contents)[k..]
      ensures Valid() <==> old(Valid())
    {
      var limit := if max.Some? then max.value else SizeMax;
      var i := 0;
      while i < limit
        invariant i <= limit && i <= |old(inbox.contents)|
        invariant inbox.contents == old(inbox.contents)[i..]
        invariant handled == old(handled) + old(inbox.contents)[..i]
      {
        var empty := inbox.Empty();
        if empty {
          break;
        }
        var message := inbox.PopFront();
        assert old(inbox.contents)[..i + 1] == old(inbox.contents)[..i] + [message];
        handled := handled + [message];
        i := i + 1;
      }
    }
  }

  /** What `send_all` leaves behind: the nulled roster, with the resets
      erased if there were any, is the reachable part of the roster. */
  lemma PrunedRoster<T>(s: seq<Connection?<T>>)
    ensures Dead(s) != [] ==> Without(Nulled(s), null) == Live(s)
    ensures Dead(s) == [] ==> Nulled(s) == Live(s) == s
  {
    PruneNulled(s);
    if Dead(s) == [] {
      LiveDeadSplit(s);
      NulledAllLive(s);
    }
  }

  /** When every entry is reachable, the in-place nulling changes nothing. */
  lemma {:induction false} NulledAllLive<T>(s: seq<Connection?<T>>)
    requires Dead(s) == []
    ensures Nulled(s) == s
  {
    if s != [] {
      NulledAllLive(s[..|s| - 1]);
      assert s == s[..|s| - 1] + [s[|s| - 1]];
    }
  }

  /** As written, a dead client given to `send` stays in the roster, so a
      following `send_all` reports it to `on_client_disconnect` a second
      time. */
  method DeadClientReportedTwice<T>(s: Server<T>, c: Connection<T>, m: Message<T>)
    requires s.Valid() && c in s.clients && !c.open
    modifies s
    ensures |s.disconnected| > |old(s.disconnected)|
    ensures s.disconnected[|old(s.disconnected)|] == c
    ensures c in s.disconnected[|old(s.disconnected)| + 1..]
  {
    ghost var before := s.disconnected;
    s.Send(c, m);
    ghost var dead := Dead(s.clients);
    assert c in dead by { DeadMembers(s.clients); }
    s.SendAll(m, null);
    assert s.disconnected == before + [c] + dead;
    assert s.disconnected[|before| + 1..] == dead;
  }

  /** With the corrected `send`, the dead client is reported once: a
      following `send_all` no longer finds it. */
  method DeadClientReportedOnce<T>(s: Server<T>, c: Connection<T>, m: Message<T>)
    requires s.Valid() && c in s.clients && !c.open
    modifies s
    ensures |s.disconnected| > |old(s.disconnected)|
    ensures s.disconnected[|old(s.disconnected)|] == c
    ensures c !in s.disconnected[|old(s.disconnected)| + 1..]
  {
    ghost var before := s.disconnected;
    s.SendPruning(c, m);
    ghost var dead := Dead(s.clients);
    assert c !in dead by { DeadMembers(s.clients); }
    s.SendAll(m, null);
    assert s.disconnected == before + [c] + dead;
    assert s.disconnected[|before| + 1..] == dead;
  }
}
