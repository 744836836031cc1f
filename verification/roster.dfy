/** Operations on a room's ordered list of player records: the `find`, `findIndex`, `filter`,
    `every` and `forEach` calls of server/src/game/game.service.ts, each as a specification
    function and, where the service runs it as a loop, a loop proved equal to it. */
module Roster {
  import opened GameInterfaces

  /** The ids present in a list of records. */
  function Ids(ps: seq<Player>): set<string> {
    set p | p in ps :: p.id
  }

  /** No id occurs twice. */
  predicate UniqueIds(ps: seq<Player>) {
    forall i, j :: 0 <= i < j < |ps| ==> ps[i].id != ps[j].id
  }

  /** Position of the first record with the given id, or -1 (`findIndex(p => p.id === id)`). */
  function IndexById(ps: seq<Player>, id: string): (i: int)
    ensures -1 <= i < |ps|
    ensures 0 <= i ==> ps[i].id == id && forall j :: 0 <= j < i ==> ps[j].id != id
    ensures i < 0 ==> forall j :: 0 <= j < |ps| ==> ps[j].id != id
    ensures i < 0 <==> id !in Ids(ps)
  {
    if |ps| == 0 then -1
    else if ps[0].id == id then 0
    else
      var k := IndexById(ps[1..], id);
      assert forall j :: 1 <= j < |ps| ==> ps[j] == ps[1..][j - 1];
      if k < 0 then -1 else k + 1
  }

  /** Position of the first record whose connection is `socketId`, or -1. */
  function IndexBySocket(ps: seq<Player>, socketId: string): (i: int)
    ensures -1 <= i < |ps|
    ensures 0 <= i ==> ps[i].socketId == socketId && forall j :: 0 <= j < i ==> ps[j].socketId != socketId
    ensures i < 0 ==> forall j :: 0 <= j < |ps| ==> ps[j].socketId != socketId
  {
    if |ps| == 0 then -1
    else if ps[0].socketId == socketId then 0
    else
      var k := IndexBySocket(ps[1..], socketId);
      assert forall j :: 1 <= j < |ps| ==> ps[j] == ps[1..][j - 1];
      if k < 0 then -1 else k + 1
  }

  /** `ps.filter(p => p.id !== id)`: the records with another id, in their order. */
  function Without(ps: seq<Player>, id: string): (qs: seq<Player>)
    ensures |qs| <= |ps|
    ensures forall p :: p in qs <==> p in ps && p.id != id
  {
    if |ps| == 0 then []
    else
      var init := ps[..|ps| - 1];
      var last := ps[|ps| - 1];
      assert ps == init + [last];
      if last.id == id then Without(init, id) else Without(init, id) + [last]
  }

  /** The filter works record by record, so the kept records keep their order: filtering a
      concatenation is concatenating the filtered parts. */
  lemma {:induction false} WithoutKeepsOrder(a: seq<Player>, b: seq<Player>, id: string)
    ensures Without(a + b, id) == Without(a, id) + Without(b, id)
    decreases |b|
  {
    if b == [] {
      assert a + b == a;
    } else {
      var init := b[..|b| - 1];
      var last := b[|b| - 1];
      assert b == init + [last];
      assert a + b == (a + init) + [last];
      WithoutSnoc(a + init, last, id);
      WithoutSnoc(init, last, id);
      WithoutKeepsOrder(a, init, id);
    }
  }

  /** One record more at the end: it is kept exactly when it has another id. */
  lemma WithoutSnoc(ps: seq<Player>, p: Player, id: string)
    ensures Without(ps + [p], id) == Without(ps, id) + (if p.id == id then [] else [p])
  {
    assert (ps + [p])[..|ps|] == ps;
  }

  /** A single record is kept exactly when it has another id. */
  lemma WithoutOfOne(p: Player, id: string)
    ensures Without([p], id) == if p.id == id then [] else [p]
  {
    assert [p][..0] == [];
  }

  /** Filtering out an id removes exactly that id from the ids present. */
  lemma WithoutIds(ps: seq<Player>, id: string)
    ensures Ids(Without(ps, id)) == Ids(ps) - {id}
  {
  }

  /** Filtering out an id nobody has changes nothing. */
  lemma {:induction false} WithoutAbsent(ps: seq<Player>, id: string)
    requires id !in Ids(ps)
    ensures Without(ps, id) == ps
  {
    if |ps| > 0 {
      var init := ps[..|ps| - 1];
      assert ps == init + [ps[|ps| - 1]];
      assert Ids(init) <= Ids(ps);
      WithoutAbsent(init, id);
    }
  }

  /** On a list without repeated ids, filtering keeps ids unique and removes at most one record. */
  lemma {:induction false} WithoutUnique(ps: seq<Player>, id: string)
    requires UniqueIds(ps)
    ensures UniqueIds(Without(ps, id))
    ensures |Without(ps, id)| == if id in Ids(ps) then |ps| - 1 else |ps|
  {
    if |ps| > 0 {
      var init := ps[..|ps| - 1];
      var last := ps[|ps| - 1];
      assert ps == init + [last];
      WithoutUnique(init, id);
      assert Ids(ps) == Ids(init) + {last.id};
      assert last.id !in Ids(init);
      var rest := Without(init, id);
      if last.id != id {
        assert last.id !in Ids(rest);
        forall i, j | 0 <= i < j < |rest + [last]| ensures (rest + [last])[i].id != (rest + [last])[j].id {
          if j == |rest| {
            assert rest[i] in rest;
          }
        }
      }
    }
  }

  /** `ps.splice(i, 1)`: the list with the record at position `i` removed. */
  function RemoveAt(ps: seq<Player>, i: nat): (qs: seq<Player>)
    requires i < |ps|
    ensures |qs| == |ps| - 1
    ensures forall j :: 0 <= j < |qs| ==> qs[j] == ps[if j < i then j else j + 1]
    ensures UniqueIds(ps) ==> UniqueIds(qs) && Ids(qs) == Ids(ps) - {ps[i].id}
  {
    var qs := ps[..i] + ps[i + 1..];
    assert forall j :: 0 <= j < |qs| ==> qs[j] == ps[if j < i then j else j + 1];
    assert forall p :: p in ps ==> p == ps[i] || p in qs;
    qs
  }

  /** Every record is ready (`every(p => p.isReady)`); true of an empty list. */
  predicate AllReady(ps: seq<Player>) {
    forall i :: 0 <= i < |ps| ==> ps[i].isReady
  }

  /** Every connected record has an entry in `answers`. */
  predicate AllConnectedAnswered(ps: seq<Player>, answers: map<string, string>) {
    forall i :: 0 <= i < |ps| && ps[i].isConnected ==> ps[i].id in answers
  }

  /** `answers[id]` is truthy: present and not the empty string. */
  predicate HasTruthyAnswer(answers: map<string, string>, id: string) {
    id in answers && answers[id] != ""
  }

  /** The records after `startGame`'s reset: score 0 and not ready, nothing else changed. */
  function ResetForGame(ps: seq<Player>): (qs: seq<Player>)
    ensures |qs| == |ps|
    ensures forall i :: 0 <= i < |ps| ==> qs[i] == ps[i].(score := 0, isReady := false)
  {
    seq(|ps|, i requires 0 <= i < |ps| => ps[i].(score := 0, isReady := false))
  }

  /** The records with `isReady` set to `ready`, nothing else changed. */
  function WithReadiness(ps: seq<Player>, ready: bool): (qs: seq<Player>)
    ensures |qs| == |ps|
    ensures forall i :: 0 <= i < |ps| ==> qs[i] == ps[i].(isReady := ready)
  {
    seq(|ps|, i requires 0 <= i < |ps| => ps[i].(isReady := ready))
  }

  /** The records after a matching round: +1 for each record whose answer is truthy. */
  function Scored(ps: seq<Player>, answers: map<string, string>): (qs: seq<Player>)
    ensures |qs| == |ps|
    ensures forall i :: 0 <= i < |ps| ==>
      qs[i] == if HasTruthyAnswer(answers, ps[i].id) then ps[i].(score := ps[i].score + 1) else ps[i]
  {
    seq(|ps|, i requires 0 <= i < |ps| =>
      if HasTruthyAnswer(answers, ps[i].id) then ps[i].(score := ps[i].score + 1) else ps[i])
  }

  /** The ids of the records flagged as creator. */
  function CreatorIdsOf(ps: seq<Player>): set<string> {
    set p | p in ps && p.isCreator :: p.id
  }

  /** At most one record is flagged as creator. */
  predicate AtMostOneCreator(ps: seq<Player>) {
    forall i, j :: 0 <= i < j < |ps| && ps[i].isCreator ==> !ps[j].isCreator
  }

  /** No record is flagged as creator. */
  predicate NoCreator(ps: seq<Player>) {
    forall i :: 0 <= i < |ps| ==> !ps[i].isCreator
  }

  /** `qs` is `ps` with only connection, name, score or readiness changed, record by record. */
  predicate SameIdentities(ps: seq<Player>, qs: seq<Player>) {
    |ps| == |qs| && forall i :: 0 <= i < |ps| ==> qs[i].id == ps[i].id && qs[i].isCreator == ps[i].isCreator
  }

  /** Records that keep their ids and creator flags keep every id-level and creator-level fact. */
  lemma SameIdentitiesKeep(ps: seq<Player>, qs: seq<Player>)
    requires SameIdentities(ps, qs)
    ensures Ids(qs) == Ids(ps) && CreatorIdsOf(qs) == CreatorIdsOf(ps)
    ensures UniqueIds(qs) == UniqueIds(ps)
    ensures AtMostOneCreator(qs) == AtMostOneCreator(ps) && NoCreator(qs) == NoCreator(ps)
  {
  }

  /** Ids are unique across a concatenation exactly when they are unique in each part and
      the parts share no id. */
  lemma {:induction false} UniqueConcat(a: seq<Player>, b: seq<Player>)
    ensures UniqueIds(a + b) <==> UniqueIds(a) && UniqueIds(b) && Ids(a) !! Ids(b)
  {
    var c := a + b;
    if UniqueIds(c) {
      assert forall i :: 0 <= i < |a| ==> a[i] == c[i];
      assert forall i :: 0 <= i < |b| ==> b[i] == c[|a| + i];
      assert UniqueIds(a);
      assert UniqueIds(b);
    }
    if UniqueIds(a) && UniqueIds(b) && Ids(a) !! Ids(b) {
      forall i, j | 0 <= i < j < |c| ensures c[i].id != c[j].id {
        if j < |a| {
        } else if i >= |a| {
          assert c[i] == b[i - |a|] && c[j] == b[j - |a|];
        } else {
          assert c[i] == a[i] && a[i] in a && c[i].id in Ids(a);
          assert c[j] == b[j - |a|] && b[j - |a|] in b && c[j].id in Ids(b);
        }
      }
    }
  }

  // ---- The loops the service runs over a list of records ----

  /** `find` / `findIndex` by id. */
  method FindById(ps: seq<Player>, id: string) returns (i: int)
    ensures i == IndexById(ps, id)
  {
    i := 0;
    while i < |ps|
      invariant 0 <= i <= |ps|
      invariant forall j :: 0 <= j < i ==> ps[j].id != id
    {
      if ps[i].id == id {
        return;
      }
      i := i + 1;
    }
    i := -1;
  }

  /** `find` by connection id. */
  method FindBySocket(ps: seq<Player>, socketId: string) returns (i: int)
    ensures i == IndexBySocket(ps, socketId)
  {
    i := 0;
    while i < |ps|
      invariant 0 <= i <= |ps|
      invariant forall j :: 0 <= j < i ==> ps[j].socketId != socketId
    {
      if ps[i].socketId == socketId {
        return;
      }
      i := i + 1;
    }
    i := -1;
  }

  /** `filter(p => p.id !== id)`. */
  method FilterOut(ps: seq<Player>, id: string) returns (qs: seq<Player>)
    ensures qs == Without(ps, id)
  {
    qs := [];
    var k := 0;
    while k < |ps|
      invariant 0 <= k <= |ps|
      invariant qs == Without(ps[..k], id)
    {
      assert ps[..k + 1][..k] == ps[..k];
      if ps[k].id != id {
        qs := qs + [ps[k]];
      }
      k := k + 1;
    }
    assert ps[..|ps|] == ps;
  }

  /** `every(p => p.isReady)`. */
  method EveryReady(ps: seq<Player>) returns (b: bool)
    ensures b <==> AllReady(ps)
  {
    var k := 0;
    while k < |ps|
      invariant 0 <= k <= |ps|
      invariant forall j :: 0 <= j < k ==> ps[j].isReady
    {
      if !ps[k].isReady {
        return false;
      }
      k := k + 1;
    }
    return true;
  }

  /** `filter(p => p.isConnected).every(p => answers[p.id] !== undefined)`. */
  method EveryConnectedAnswered(ps: seq<Player>, answers: map<string, string>) returns (b: bool)
    ensures b <==> AllConnectedAnswered(ps, answers)
  {
    var k := 0;
    while k < |ps|
      invariant 0 <= k <= |ps|
      invariant forall j :: 0 <= j < k && ps[j].isConnected ==> ps[j].id in answers
    {
      if ps[k].isConnected && ps[k].id !in answers {
        return false;
      }
      k := k + 1;
    }
    return true;
  }

  /** `forEach(p => { p.score = 0; p.isReady = false; })`. */
  method ResetEach(ps: seq<Player>) returns (qs: seq<Player>)
    ensures qs == ResetForGame(ps)
  {
    qs := ps;
    var k := 0;
    while k < |qs|
      invariant 0 <= k <= |qs| == |ps|
      invariant forall j :: 0 <= j < k ==> qs[j] == ps[j].(score := 0, isReady := false)
      invariant forall j :: k <= j < |qs| ==> qs[j] == ps[j]
    {
      qs := qs[k := qs[k].(score := 0, isReady := false)];
      k := k + 1;
    }
  }

  /** `forEach(p => p.isReady = ready)`. */
  method SetEachReadiness(ps: seq<Player>, ready: bool) returns (qs: seq<Player>)
    ensures qs == WithReadiness(ps, ready)
  {
    qs := ps;
    var k := 0;
    while k < |qs|
      invariant 0 <= k <= |qs| == |ps|
      invariant forall j :: 0 <= j < k ==> qs[j] == ps[j].(isReady := ready)
      invariant forall j :: k <= j < |qs| ==> qs[j] == ps[j]
    {
      qs := qs[k := qs[k].(isReady := ready)];
      k := k + 1;
    }
  }

  /** `forEach(p => { if (answers[p.id]) p.score += 1; })`. */
  method AwardEach(ps: seq<Player>, answers: map<string, string>) returns (qs: seq<Player>)
    ensures qs == Scored(ps, answers)
  {
    qs := ps;
    var k := 0;
    while k < |qs|
      invariant 0 <= k <= |qs| == |ps|
      invariant forall j :: 0 <= j < k ==>
        qs[j] == if HasTruthyAnswer(answers, ps[j].id) then ps[j].(score := ps[j].score + 1) else ps[j]
      invariant forall j :: k <= j < |qs| ==> qs[j] == ps[j]
    {
      if ps[k].id in answers && answers[ps[k].id] != "" {
        qs := qs[k := qs[k].(score := qs[k].score + 1)];
      }
      k := k + 1;
    }
  }
}
