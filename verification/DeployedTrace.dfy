// What a run of requests leaves behind (xpheap.h): which requests hold an object, and
// where the objects are that were freed.

module DeployedTrace {
  import opened Kingsley
  import opened DeployedSpec

  // A request to one of the heaps; a free names the request whose object it frees.
  datatype Request = MallocOf(heap: nat, size: nat) | FreeOf(heap: nat, target: nat)

  predicate Frees(r: Request, i: nat) {
    r.FreeOf? && r.target == i
  }

  // The requests that hold an object hold different live ones, large enough.
  ghost predicate HeldOk(requests: seq<Request>, results: seq<nat>, held: set<nat>, objects: Objects,
                         status: map<nat, Status>) {
    && (forall i :: i in held ==> i < |results| <= |requests| && requests[i].MallocOf?)
    && (forall i :: i in held ==>
         results[i] in objects && results[i] in status && status[results[i]] == Live
           && requests[i].size <= objects[results[i]])
    && forall i, j :: i in held && j in held && i != j ==> results[i] != results[j]
  }

  // Among the first n requests, exactly the mallocs that no later free names hold one.
  ghost predicate HeldExactly(requests: seq<Request>, n: nat, held: set<nat>)
    requires n <= |requests|
  {
    forall i: nat :: i in held <==> i < n && requests[i].MallocOf? && forall k :: i < k < n ==> !Frees(requests[k], i)
  }

  // Request k is the first to free the object that request i obtained.
  ghost predicate FirstFree(requests: seq<Request>, i: nat, k: nat) {
    && i < k < |requests| && requests[i].MallocOf? && Frees(requests[k], i)
    && forall m :: i < m < k ==> !Frees(requests[m], i)
  }

  // Request j obtained the address that i had obtained, after request k.
  ghost predicate TakenAgain(requests: seq<Request>, results: seq<nat>, i: nat, k: nat, j: nat) {
    i < |results| && k < j < |results| <= |requests| && requests[j].MallocOf? && results[j] == results[i]
  }

  // The object at p, not in use, is in the bin of its class in heap h; one that is too
  // large for the bins is gone.
  ghost predicate PutAway(objects: Objects, status: map<nat, Status>, lists: Bins<seq<nat>>, p: nat, h: nat) {
    && p in objects && p in status
    && if objects[p] > MAX_SIZE then status[p] == Dropped
       else
         && h < |lists| && SizeClass(objects[p]) < |lists[h]|
         && status[p] == Binned(h, SizeClass(objects[p])) && p in lists[h][SizeClass(objects[p])]
  }

  // The object of every malloc freed so far has been obtained again since, or is where
  // its free has put it.
  ghost predicate FreedOk(requests: seq<Request>, results: seq<nat>, objects: Objects, status: map<nat, Status>,
                          lists: Bins<seq<nat>>) {
    |results| <= |requests| &&
    forall i: nat, k: nat {:trigger FirstFree(requests, i, k)} :: FirstFree(requests, i, k) && k < |results| ==>
      || (exists j :: TakenAgain(requests, results, i, k, j))
      || PutAway(objects, status, lists, results[i], requests[k].heap)
  }

  lemma HeldMeans(requests: seq<Request>, n: nat, held: set<nat>)
    requires n <= |requests| && HeldExactly(requests, n, held)
    ensures forall i: nat :: i in held <==>
      i < n && requests[i].MallocOf? && forall k :: i < k < n ==> !Frees(requests[k], i)
  {
  }

  lemma NothingFreed(requests: seq<Request>, objects: Objects, status: map<nat, Status>, lists: Bins<seq<nat>>)
    ensures FreedOk(requests, [], objects, status, lists) && HeldExactly(requests, 0, {})
  {
  }

  lemma HeldAfterMalloc(requests: seq<Request>, n: nat, held: set<nat>)
    requires n < |requests| && requests[n].MallocOf? && HeldExactly(requests, n, held)
    ensures HeldExactly(requests, n + 1, held + {n})
  {
  }

  lemma HeldAfterFree(requests: seq<Request>, n: nat, held: set<nat>)
    requires n < |requests| && requests[n].FreeOf? && HeldExactly(requests, n, held)
    ensures HeldExactly(requests, n + 1, held - {requests[n].target})
  {
  }

  // Malloc obtained p, from the front of one of the bins or new.
  lemma FreedAfterMalloc(requests: seq<Request>, results: seq<nat>, objects: Objects, status: map<nat, Status>,
                         lists: Bins<seq<nat>>, lists': Bins<seq<nat>>, p: nat, size: nat, h: nat, c: nat)
    requires FreedOk(requests, results, objects, status, lists)
    requires |results| < |requests| && requests[|results|].MallocOf?
    requires lists' == lists
      || (h < |lists| && c < |lists[h]| && h < |lists'| && c < |lists'[h]| && lists[h][c] == [p] + lists'[h][c]
          && lists' == Put(lists, h, c, lists'[h][c]))
    ensures FreedOk(requests, results + [p], objects[p := size], status[p := Live], lists')
  {
    var n, results' := |results|, results + [p];
    forall i: nat, k: nat | FirstFree(requests, i, k) && k < |results'|
      ensures
        || (exists j :: TakenAgain(requests, results', i, k, j))
        || PutAway(objects[p := size], status[p := Live], lists', results'[i], requests[k].heap)
    {
      if j :| TakenAgain(requests, results, i, k, j) {
        assert TakenAgain(requests, results', i, k, j);
      } else if results[i] == p {
        assert TakenAgain(requests, results', i, k, n);
      } else {
        hide SizeClass;
        assert PutAway(objects, status, lists, results[i], requests[k].heap);
      }
    }
  }

  // Free put the object that request t held into the bin of its class, or dropped it.
  lemma FreedAfterFree(requests: seq<Request>, results: seq<nat>, objects: Objects, status: map<nat, Status>,
                       lists: Bins<seq<nat>>, status': map<nat, Status>, lists': Bins<seq<nat>>, t: nat)
    requires FreedOk(requests, results, objects, status, lists)
    requires |results| < |requests| && requests[|results|].FreeOf? && requests[|results|].target == t < |results|
    requires results[t] in objects && results[t] in status && status[results[t]] == Live
    requires var p, h := results[t], requests[|results|].heap;
      if objects[p] > MAX_SIZE then status' == status[p := Dropped] && lists' == lists
      else
        && h < |lists| && SizeClass(objects[p]) < |lists[h]| && status' == status[p := Binned(h, SizeClass(objects[p]))]
        && lists' == Put(lists, h, SizeClass(objects[p]), [p] + lists[h][SizeClass(objects[p])])
    ensures FreedOk(requests, results + [0], objects, status', lists')
  {
    hide SizeClass;
    var n, results' := |results|, results + [0];
    forall i: nat, k: nat | FirstFree(requests, i, k) && k < |results'|
      ensures
        || (exists j :: TakenAgain(requests, results', i, k, j))
        || PutAway(objects, status', lists', results'[i], requests[k].heap)
    {
      if k < n {
        if j :| TakenAgain(requests, results, i, k, j) {
          assert TakenAgain(requests, results', i, k, j);
        } else {
          assert PutAway(objects, status, lists, results[i], requests[k].heap);
        }
      }
    }
  }

  // A free that names no request holding an object does nothing.
  lemma FreedAfterNothing(requests: seq<Request>, results: seq<nat>, held: set<nat>, objects: Objects,
                          status: map<nat, Status>, lists: Bins<seq<nat>>)
    requires FreedOk(requests, results, objects, status, lists) && |results| < |requests|
    requires HeldExactly(requests, |results|, held)
    requires requests[|results|].FreeOf? && requests[|results|].target !in held
    ensures FreedOk(requests, results + [0], objects, status, lists)
  {
    hide PutAway;
    var n, results' := |results|, results + [0];
    forall i: nat, k: nat | FirstFree(requests, i, k) && k < |results'|
      ensures
        || (exists j :: TakenAgain(requests, results', i, k, j))
        || PutAway(objects, status, lists, results'[i], requests[k].heap)
    {
      if j :| TakenAgain(requests, results, i, k, j) {
        assert TakenAgain(requests, results', i, k, j);
      }
    }
  }

  // The last request that obtained the address of a freed object holds it, if it is in use.
  lemma {:induction false} LiveIsHeld(requests: seq<Request>, results: seq<nat>, held: set<nat>, objects: Objects,
                                      status: map<nat, Status>, lists: Bins<seq<nat>>, i: nat, k: nat) returns (j: nat)
    requires FreedOk(requests, results, objects, status, lists) && HeldExactly(requests, |results|, held)
    requires FirstFree(requests, i, k) && k < |results| && results[i] in status && status[results[i]] == Live
    ensures j in held && k < j < |results| && results[j] == results[i]
    decreases |results| - k
  {
    j :| TakenAgain(requests, results, i, k, j);
    if j !in held {
      var m: nat := FirstFreeOf(requests, |results|, held, j);
      j := LiveIsHeld(requests, results, held, objects, status, lists, j, m);
    }
  }

  lemma {:induction false} FirstFreeOf(requests: seq<Request>, n: nat, held: set<nat>, i: nat) returns (k: nat)
    requires n <= |requests| && HeldExactly(requests, n, held) && i < n && requests[i].MallocOf? && i !in held
    ensures FirstFree(requests, i, k) && k < n
  {
    k := i + 1;
    while !Frees(requests[k], i)
      invariant i < k < n && forall m :: i < m < k ==> !Frees(requests[m], i)
      decreases n - k
    {
      if k + 1 == n {
        assert false;
      }
      k := k + 1;
    }
  }

  // ----- the whole invariant of a run -----

  ghost predicate RunOk(requests: seq<Request>, results: seq<nat>, held: set<nat>, objects: Objects,
                        status: map<nat, Status>, lists: Bins<seq<nat>>) {
    && |results| <= |requests| && HeldOk(requests, results, held, objects, status)
    && HeldExactly(requests, |results|, held) && FreedOk(requests, results, objects, status, lists)
  }

  lemma RunStarts(requests: seq<Request>, objects: Objects, status: map<nat, Status>, lists: Bins<seq<nat>>)
    ensures RunOk(requests, [], {}, objects, status, lists)
  {
    NothingFreed(requests, objects, status, lists);
  }

  lemma HeldIsLive(requests: seq<Request>, results: seq<nat>, held: set<nat>, objects: Objects,
                   status: map<nat, Status>, lists: Bins<seq<nat>>, i: nat)
    requires RunOk(requests, results, held, objects, status, lists) && i in held
    ensures i < |results| && results[i] in objects && results[i] in status && status[results[i]] == Live
  {
    hide HeldExactly, FreedOk;
  }

  lemma RunAfterMalloc(requests: seq<Request>, results: seq<nat>, held: set<nat>, objects: Objects,
                       status: map<nat, Status>, lists: Bins<seq<nat>>, lists': Bins<seq<nat>>, p: nat, size: nat,
                       h: nat, c: nat)
    requires RunOk(requests, results, held, objects, status, lists) && |results| < |requests|
    requires requests[|results|].MallocOf? && requests[|results|].size <= size && (p in status ==> status[p] != Live)
    requires lists' == lists
      || (h < |lists| && c < |lists[h]| && h < |lists'| && c < |lists'[h]| && lists[h][c] == [p] + lists'[h][c]
          && lists' == Put(lists, h, c, lists'[h][c]))
    ensures RunOk(requests, results + [p], held + {|results|}, objects[p := size], status[p := Live], lists')
  {
    HeldAfterMalloc(requests, |results|, held);
    FreedAfterMalloc(requests, results, objects, status, lists, lists', p, size, h, c);
    hide HeldExactly, FreedOk;
  }

  lemma RunAfterFree(requests: seq<Request>, results: seq<nat>, held: set<nat>, objects: Objects,
                     status: map<nat, Status>, lists: Bins<seq<nat>>, status': map<nat, Status>,
                     lists': Bins<seq<nat>>, t: nat)
    requires RunOk(requests, results, held, objects, status, lists) && |results| < |requests| && t in held
    requires requests[|results|].FreeOf? && requests[|results|].target == t < |results| && results[t] in objects
    requires var p, h := results[t], requests[|results|].heap;
      if objects[p] > MAX_SIZE then status' == status[p := Dropped] && lists' == lists
      else
        && h < |lists| && SizeClass(objects[p]) < |lists[h]| && status' == status[p := Binned(h, SizeClass(objects[p]))]
        && lists' == Put(lists, h, SizeClass(objects[p]), [p] + lists[h][SizeClass(objects[p])])
    ensures RunOk(requests, results + [0], held - {t}, objects, status', lists')
  {
    hide SizeClass;
    HeldIsLive(requests, results, held, objects, status, lists, t);
    HeldAfterFree(requests, |results|, held);
    FreedAfterFree(requests, results, objects, status, lists, status', lists', t);
    hide HeldExactly, FreedOk;
  }

  lemma RunAfterNothing(requests: seq<Request>, results: seq<nat>, held: set<nat>, objects: Objects,
                        status: map<nat, Status>, lists: Bins<seq<nat>>)
    requires RunOk(requests, results, held, objects, status, lists) && |results| < |requests|
    requires requests[|results|].FreeOf? && requests[|results|].target !in held
    ensures RunOk(requests, results + [0], held, objects, status, lists)
  {
    HeldAfterFree(requests, |results|, held);
    assert held - {requests[|results|].target} == held;
    FreedAfterNothing(requests, results, held, objects, status, lists);
    hide HeldExactly, FreedOk;
  }

  lemma RunEnds(requests: seq<Request>, results: seq<nat>, held: set<nat>, objects: Objects,
                status: map<nat, Status>, lists: Bins<seq<nat>>)
    requires RunOk(requests, results, held, objects, status, lists)
    ensures |results| <= |requests| && HeldOk(requests, results, held, objects, status)
    ensures forall i: nat :: i in held <==>
      i < |results| && requests[i].MallocOf? && forall k :: i < k < |results| ==> !Frees(requests[k], i)
    ensures FreedOk(requests, results, objects, status, lists)
    ensures forall i: nat, k: nat {:trigger FirstFree(requests, i, k)} ::
      FirstFree(requests, i, k) && k < |results| && results[i] in status && status[results[i]] == Live ==>
        exists j :: j in held && k < j < |results| && results[j] == results[i]
  {
    HeldMeans(requests, |results|, held);
    hide HeldOk, HeldExactly, FreedOk, FirstFree;
    forall i: nat, k: nat
      | FirstFree(requests, i, k) && k < |results| && i < |results| && results[i] in status
        && status[results[i]] == Live
      ensures exists j :: j in held && k < j < |results| && results[j] == results[i]
    {
      var j := LiveIsHeld(requests, results, held, objects, status, lists, i, k);
    }
    FreesAreLater(requests);
  }

  lemma FreesAreLater(requests: seq<Request>)
    ensures forall i: nat, k: nat :: FirstFree(requests, i, k) ==> i < k
  {
  }
}
