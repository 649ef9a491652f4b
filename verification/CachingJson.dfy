/** The caching layer over the JSON object store: names and contents are remembered locally, on the
    assumption that this is the only writer and that a name never changes its content. */
module CachingJson {
  import opened Basics

  /** How a backend call goes: it works, it fails without effect, or it fails after taking effect. */
  datatype Fault = Works | FailsBefore | FailsAfter

  datatype Reply = Done | NotFound | Failed | Content(bytes: string) | Names(names: seq<string>)

  datatype Call =
    | List(listing: Fault)
    | Open(name: string, listing: Fault, opening: Fault)
    | Upload(name: string, data: string, uploading: Fault, listing: Fault)
    | Delete(name: string, listing: Fault, deleting: Fault)

  type Json = map<string, string>

  /** The two cached attributes and the contents of the two stores. */
  datatype State = State(nameSet: Option<set<string>>, nameList: Option<seq<string>>, backend: Json, cache: Json)

  ghost predicate SortedNames(list: seq<string>, names: set<string>) {
    Distinct(list) && SortedBy(list, TextLeq) && Elements(list) == names
  }

  /** The list is that of the cached names, and cached contents are the backend's. */
  ghost predicate Sane(s: State) {
    && (s.nameList.Some? ==> s.nameSet.Some? && SortedNames(s.nameList.value, s.nameSet.value))
    && (forall n :: n in s.cache && n in s.backend ==> s.cache[n] == s.backend[n])
  }

  /** The names about which cache and backend disagree. */
  ghost function Divergence(s: State): set<string> {
    if s.nameSet.None? then {} else (s.nameSet.value - s.backend.Keys) + (s.backend.Keys - s.nameSet.value)
  }

  // ---------------------------------------------------------------- against a plain map

  /** What a plain map of names to contents answers, and what becomes of it. */
  ghost predicate PlainReply(m: Json, call: Call, reply: Reply) {
    match call
    case List(_) => reply.Names? && SortedNames(reply.names, m.Keys)
    case Open(n, _, _) => reply == if n in m then Content(m[n]) else NotFound
    case Upload(_, _, _, _) => reply == Done
    case Delete(n, _, _) => reply == if n in m then Done else NotFound
  }

  ghost function PlainNext(m: Json, call: Call): Json {
    match call
    case Upload(n, data, _, _) => m[n := data]
    case Delete(n, _, _) => m - {n}
    case _ => m
  }

  /** Names keep their content. */
  ghost predicate Immutable(m: Json, call: Call) {
    call.Upload? && call.name in m ==> m[call.name] == call.data
  }

  /** A call on a name about which cache and backend agree. */
  ghost predicate OnAgreed(s: State, call: Call) {
    !call.List? && call.name !in Divergence(s)
  }

  /** The names are not cached and cannot be listed now. */
  ghost predicate Unlisted(s: State, call: Call) {
    s.nameSet.None? && call.listing != Works
  }

  /** The backend changes as the plain map does or not at all; if the reply is not a failure, as it says. */
  ghost predicate BackendFollows(s: State, call: Call, t: State, reply: Reply) {
    var next := PlainNext(s.backend, call);
    && (t.backend == s.backend || t.backend == next)
    && (reply == Done ==> t.backend == next && (call.Upload? || (call.Delete? && OnAgreed(s, call) && call.name in s.backend)))
    && (reply != Done && reply != Failed ==> t.backend == s.backend)
    && (call.Upload? ==> t.backend == if call.uploading == FailsBefore then s.backend else next)
    && (call.Delete? && OnAgreed(s, call) && !Unlisted(s, call) ==>
          t.backend == if call.deleting == FailsBefore then s.backend else next)
  }

  /** A failure has a cause. */
  ghost predicate FailsForCause(s: State, call: Call, reply: Reply) {
    && (call.List? ==> (reply == Failed <==> Unlisted(s, call)))
    && (call.Open? ==> (Unlisted(s, call) ==> reply == Failed) && (reply == Failed ==> Unlisted(s, call) || call.opening != Works))
    && (call.Upload? ==> (reply == Failed <==> call.uploading != Works || Unlisted(s, call)))
    && (call.Delete? ==> (Unlisted(s, call) ==> reply == Failed) && (reply == Failed ==> Unlisted(s, call) || call.deleting != Works))
    && (call.Delete? && OnAgreed(s, call) && call.name in s.backend && call.deleting != Works ==> reply == Failed)
  }

  /** An answer that is not a failure is the plain map's, on all names about which cache and backend
      agree; a list shows the others the wrong way round. */
  ghost predicate AnswersPlainly(s: State, call: Call, reply: Reply) {
    && (OnAgreed(s, call) && reply != Failed ==> PlainReply(s.backend, call, reply))
    && (call.List? && reply != Failed ==> reply.Names? && SortedNames(reply.names, SeenNames(s)))
  }

  ghost function SeenNames(s: State): set<string> {
    (s.backend.Keys - Divergence(s)) + (Divergence(s) - s.backend.Keys)
  }

  /** The call changes whether its name is stored, the caller is told that it failed, and names are cached. */
  ghost predicate Unnoticed(s: State, call: Call, t: State, reply: Reply) {
    !call.List? && reply == Failed && t.nameSet.Some? && (call.name in s.backend <==> call.name !in t.backend)
  }

  /** The disagreement after a call: the name of an unnoticed change joins it, or leaves it if it was in it;
      the name of a call that is done leaves it; nothing else changes. */
  ghost predicate DivergenceKnown(s: State, call: Call, t: State, reply: Reply) {
    && (forall n :: call.List? || n != call.name ==> (n in Divergence(t) <==> n in Divergence(s)))
    && (!call.List? ==> (call.name in Divergence(t) <==>
          if reply == Done then false
          else if Unnoticed(s, call, t, reply) then call.name !in Divergence(s)
          else call.name in Divergence(s)))
    && (t.nameSet.Some? <==> s.nameSet.Some? || (call.listing == Works && (call.Upload? ==> call.uploading == Works)))
  }

  /** Contents are kept locally when they are uploaded or opened, and dropped when a listed name is to be
      deleted, whether that works or not. */
  ghost predicate CacheFollows(s: State, call: Call, t: State, reply: Reply) {
    match call
    case List(_) => t.cache == s.cache
    case Open(n, _, _) => t.cache == if reply.Content? then s.cache[n := reply.bytes] else s.cache
    case Upload(n, data, _, _) => t.cache == s.cache[n := data]
    case Delete(n, _, _) => t.cache == if n in SeenNames(s) && !Unlisted(s, call) then s.cache - {n} else s.cache
  }

  /** What a caller may count on, whatever fails. */
  ghost predicate Behaves(s: State, call: Call, t: State, reply: Reply) {
    && (Immutable(s.backend, call) ==> Sane(t))
    && BackendFollows(s, call, t, reply) && FailsForCause(s, call, reply)
    && AnswersPlainly(s, call, reply) && DivergenceKnown(s, call, t, reply) && CacheFollows(s, call, t, reply)
  }

  // ---------------------------------------------------------------- the object

  class CachingJsonStorage {
    var nameSet: Option<set<string>>
    var nameList: Option<seq<string>>
    var backend: Json
    var cache: Json

    ghost function Now(): State
      reads this
    {
      State(nameSet, nameList, backend, cache)
    }

    constructor (backend: Json, cache: Json)
      ensures Now() == State(None, None, backend, cache)
    {
      this.backend, this.cache := backend, cache;
      nameSet, nameList := None, None;
    }

    /** The lazily loaded name set; the listing is only done, and can only fail, the first time. */
    method LoadNames(listing: Fault) returns (ok: bool)
      requires Sane(Now())
      modifies this
      ensures Sane(Now()) && Now() == old(Now()).(nameSet := nameSet)
      ensures Divergence(Now()) == old(Divergence(Now()))
      ensures ok <==> nameSet.Some?
      ensures ok <==> old(nameSet.Some?) || listing == Works
      ensures old(nameSet.Some?) ==> nameSet == old(nameSet)
    {
      if nameSet.None? {
        if listing != Works {
          return false;
        }
        nameSet := Some(backend.Keys);
      }
      return true;
    }

    method ListJsons(listing: Fault) returns (reply: Reply)
      requires Sane(Now())
      modifies this
      ensures Behaves(old(Now()), List(listing), Now(), reply)
    {
      if nameList.None? {
        var ok := LoadNames(listing);
        if !ok {
          return Failed;
        }
        var list := ListOf(nameSet.value);
        TextLeqOrders();
        SortBySorted(list, TextLeq);
        SortByPermutes(list, TextLeq);
        SortByDistinct(list, TextLeq);
        nameList := Some(SortBy(list, TextLeq));
        assert Elements(nameList.value) == nameSet.value;
      }
      NamesAre(old(Now()), Now());
      return Names(nameList.value);
    }

    method OpenJson(name: string, listing: Fault, opening: Fault) returns (reply: Reply)
      requires Sane(Now())
      modifies this
      ensures Behaves(old(Now()), Open(name, listing, opening), Now(), reply)
    {
      var ok := LoadNames(listing);
      if !ok {
        return Failed;
      }
      if name !in nameSet.value {
        return NotFound;
      }
      if name in cache {
        return Content(cache[name]);
      }
      if opening != Works {
        return Failed;
      }
      if name !in backend {
        return NotFound;
      }
      cache := cache[name := backend[name]];
      return Content(cache[name]);
    }

    method UploadJson(name: string, data: string, uploading: Fault, listing: Fault) returns (reply: Reply)
      requires Sane(Now())
      modifies this
      ensures Behaves(old(Now()), Upload(name, data, uploading, listing), Now(), reply)
    {
      cache := cache[name := data];
      if uploading == FailsBefore {
        return Failed;
      }
      backend := backend[name := data];
      if uploading == FailsAfter {
        return Failed;
      }
      if nameSet.None? {
        if listing != Works {
          return Failed;
        }
        nameSet := Some(backend.Keys);
      }
      nameSet := Some(nameSet.value + {name});
      nameList := None;
      return Done;
    }

    method DeleteJson(name: string, listing: Fault, deleting: Fault) returns (reply: Reply)
      requires Sane(Now())
      modifies this
      ensures Behaves(old(Now()), Delete(name, listing, deleting), Now(), reply)
    {
      var ok := LoadNames(listing);
      if !ok {
        return Failed;
      }
      if name !in nameSet.value {
        return NotFound;
      }
      ghost var loaded := Now();
      reply := DeleteKnown(name, deleting);
      AfterLoading(old(Now()), loaded, Delete(name, listing, deleting), Now(), reply);
    }

    /** The rest of a deletion, when the name is in the cached set. */
    method DeleteKnown(name: string, deleting: Fault) returns (reply: Reply)
      requires Sane(Now()) && nameSet.Some? && name in nameSet.value
      modifies this
      ensures Behaves(old(Now()), Delete(name, Works, deleting), Now(), reply)
    {
      cache := cache - {name};
      if deleting == FailsBefore {
        return Failed;
      }
      if name !in backend {
        return NotFound;
      }
      backend := backend - {name};
      if deleting == FailsAfter {
        return Failed;
      }
      nameSet := Some(nameSet.value - {name});
      nameList := None;
      return Done;
    }
  }

  /** A deletion that had to load the names first is one that found them loaded. */
  lemma AfterLoading(s: State, u: State, call: Call, t: State, reply: Reply)
    requires call.Delete? && !Unlisted(s, call) && u.nameSet.Some? && u.backend == s.backend && u.cache == s.cache && Divergence(u) == Divergence(s)
    requires Behaves(u, call.(listing := Works), t, reply)
    ensures Behaves(s, call, t, reply)
  {
  }

  lemma NamesAre(s: State, t: State)
    requires t.nameSet.Some? && t.backend == s.backend && Divergence(t) == Divergence(s)
    ensures t.nameSet.value == SeenNames(s)
  {
  }

  // ---------------------------------------------------------------- exactly when cache and backend part

  /** The change goes unnoticed exactly when the backend's upload or delete takes effect but fails, the
      names are cached, and the name is not stored (upload) or stored (delete). */
  lemma UnnoticedIff(s: State, call: Call, t: State, reply: Reply)
    requires Behaves(s, call, t, reply) && OnAgreed(s, call)
    ensures Unnoticed(s, call, t, reply) <==>
      || (call.Upload? && call.uploading == FailsAfter && s.nameSet.Some? && call.name !in s.backend)
      || (call.Delete? && call.deleting == FailsAfter && !Unlisted(s, call) && call.name in s.backend)
  {
  }

  /** From agreement, a call leads to agreement exactly when it does not change the backend unnoticed. */
  lemma AgreesIff(s: State, call: Call, t: State, reply: Reply)
    requires Behaves(s, call, t, reply) && Divergence(s) == {}
    ensures Divergence(t) == {} <==> !Unnoticed(s, call, t, reply)
    ensures Divergence(t) == {} && t.nameSet.Some? ==> t.nameSet.value == t.backend.Keys
  {
    if Unnoticed(s, call, t, reply) {
      assert call.name in Divergence(t);
    } else {
      forall n ensures n !in Divergence(t) {
        assert !call.List? && n == call.name ==> n !in Divergence(t);
      }
    }
  }

  // ---------------------------------------------------------------- every run

  ghost predicate IsRun(states: seq<State>, calls: seq<Call>, replies: seq<Reply>) {
    && |states| == |calls| + 1 && |replies| == |calls| && Sane(states[0])
    && forall i :: 0 <= i < |calls| ==> RunStep(states, calls, replies, i)
  }

  ghost predicate RunStep(states: seq<State>, calls: seq<Call>, replies: seq<Reply>, i: nat)
    requires |states| == |calls| + 1 && |replies| == |calls| && i < |calls|
  {
    Immutable(states[i].backend, calls[i]) && Behaves(states[i], calls[i], states[i + 1], replies[i])
  }

  /** The names whose last change went unnoticed: kept from the outside, from calls, replies and backend. */
  ghost function Unhealed(states: seq<State>, calls: seq<Call>, replies: seq<Reply>, i: nat): set<string>
    requires |states| == |calls| + 1 && |replies| == |calls| && i <= |calls|
  {
    if i == 0 then {}
    else
      var before, call := Unhealed(states, calls, replies, i - 1), calls[i - 1];
      if call.List? then before
      else if replies[i - 1] == Done then before - {call.name}
      else if !Unnoticed(states[i - 1], call, states[i], replies[i - 1]) then before
      else if call.name in before then before - {call.name}
      else before + {call.name}
  }

  /** In every run from agreement, with backend calls failing anywhere and anyhow, cache and backend
      disagree exactly about the names whose last change went unnoticed. Every answer about another name
      is a failure or the plain map's, and every list is the backend's with those names turned round. */
  lemma {:induction false} RunAnswersLikePlainMap(states: seq<State>, calls: seq<Call>, replies: seq<Reply>, i: nat)
    requires IsRun(states, calls, replies) && Divergence(states[0]) == {} && i <= |calls|
    ensures Sane(states[i]) && Divergence(states[i]) == Unhealed(states, calls, replies, i)
    ensures i < |calls| && replies[i] != Failed && !calls[i].List? && calls[i].name !in Unhealed(states, calls, replies, i) ==>
      PlainReply(states[i].backend, calls[i], replies[i])
    ensures i < |calls| && replies[i] != Failed && calls[i].List? ==>
      replies[i].Names? && SortedNames(replies[i].names, SeenNames(states[i]))
  {
    if i > 0 {
      RunAnswersLikePlainMap(states, calls, replies, i - 1);
      assert RunStep(states, calls, replies, i - 1);
      var s, call, t, reply := states[i - 1], calls[i - 1], states[i], replies[i - 1];
      assert DivergenceKnown(s, call, t, reply);
      forall n ensures n in Divergence(t) <==> n in Unhealed(states, calls, replies, i) {
      }
    }
    if i < |calls| {
      assert RunStep(states, calls, replies, i);
    }
  }

  /** Without unnoticed changes there is never any disagreement, and lists are the backend's. */
  lemma {:induction false} NoticedRunsAgree(states: seq<State>, calls: seq<Call>, replies: seq<Reply>, i: nat)
    requires IsRun(states, calls, replies) && Divergence(states[0]) == {} && i <= |calls|
    requires forall j :: 0 <= j < |calls| ==> !Unnoticed(states[j], calls[j], states[j + 1], replies[j])
    ensures Divergence(states[i]) == {}
    ensures i < |calls| && replies[i] != Failed ==> PlainReply(states[i].backend, calls[i], replies[i])
  {
    if i > 0 {
      NoticedRunsAgree(states, calls, replies, i - 1);
      assert RunStep(states, calls, replies, i - 1);
      assert !Unnoticed(states[i - 1], calls[i - 1], states[(i - 1) + 1], replies[i - 1]);
      AgreesIff(states[i - 1], calls[i - 1], states[i], replies[i - 1]);
    }
    if i < |calls| {
      assert RunStep(states, calls, replies, i);
      assert SeenNames(states[i]) == states[i].backend.Keys;
    }
  }

  /** A name that is listed although it is gone stays so whatever calls follow, unless it is uploaded:
      no repeated delete takes it off the list, and none is ever reported as done. */
  lemma {:induction false} DeletingDoesNotHeal(states: seq<State>, calls: seq<Call>, replies: seq<Reply>, n: string, i: nat)
    requires IsRun(states, calls, replies) && i <= |calls|
    requires n in Divergence(states[0]) && n !in states[0].backend
    requires forall j :: 0 <= j < |calls| ==> !(calls[j].Upload? && calls[j].name == n)
    ensures n in Divergence(states[i]) && n !in states[i].backend
    ensures i < |calls| && calls[i].Delete? && calls[i].name == n ==> replies[i] != Done
  {
    if i > 0 {
      DeletingDoesNotHeal(states, calls, replies, n, i - 1);
      assert RunStep(states, calls, replies, i - 1);
    }
    if i < |calls| {
      assert RunStep(states, calls, replies, i);
    }
  }

  /** The object makes such runs: any calls, one after another. */
  method Serve(store: CachingJsonStorage, calls: seq<Call>) returns (replies: seq<Reply>, ghost states: seq<State>)
    requires Sane(store.Now())
    modifies store
    ensures |states| == |replies| + 1 && states[0] == old(store.Now()) && states[|replies|] == store.Now()
    ensures |replies| <= |calls| && IsRun(states, calls[..|replies|], replies)
    ensures |replies| < |calls| ==> !Immutable(store.backend, calls[|replies|])
  {
    replies, states := [], [store.Now()];
    for i := 0 to |calls|
      invariant |replies| == i && |states| == i + 1 && states[0] == old(store.Now()) && states[i] == store.Now()
      invariant Sane(store.Now()) && IsRun(states, calls[..i], replies)
    {
      if calls[i].Upload? && calls[i].name in store.backend && store.backend[calls[i].name] != calls[i].data {
        return;
      }
      var reply;
      match calls[i] {
        case List(listing) => reply := store.ListJsons(listing);
        case Open(name, listing, opening) => reply := store.OpenJson(name, listing, opening);
        case Upload(name, data, uploading, listing) => reply := store.UploadJson(name, data, uploading, listing);
        case Delete(name, listing, deleting) => reply := store.DeleteJson(name, listing, deleting);
      }
      RunGrows(states, calls, replies, i, store.Now(), reply);
      replies, states := replies + [reply], states + [store.Now()];
    }
    assert calls[..|calls|] == calls;
  }

  lemma RunGrows(states: seq<State>, calls: seq<Call>, replies: seq<Reply>, i: nat, t: State, reply: Reply)
    requires i < |calls| && IsRun(states, calls[..i], replies)
    requires Immutable(states[i].backend, calls[i]) && Behaves(states[i], calls[i], t, reply)
    ensures IsRun(states + [t], calls[..i + 1], replies + [reply])
  {
    var states1, calls1, replies1 := states + [t], calls[..i + 1], replies + [reply];
    forall j | 0 <= j < |calls1| ensures RunStep(states1, calls1, replies1, j) {
      if j < i {
        assert RunStep(states, calls[..i], replies, j);
      }
    }
  }

  /** A deletion that takes effect but fails leaves the name listed, however the storage got there. */
  lemma UnnoticedDeleteLingers(s: State, t: State, reply: Reply, name: string)
    requires Divergence(s) == {} && name in s.backend
    requires Behaves(s, Delete(name, Works, FailsAfter), t, reply)
    ensures reply == Failed && name !in t.backend && name in SeenNames(t)
  {
  }
}
