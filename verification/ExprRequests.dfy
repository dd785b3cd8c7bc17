/**
 * The pending-request registry of `storage/requests.py`: claiming a request, staging the pages
 * of its reply in any order and from any sender, and joining them as
 * `communication/storage_response/handle.py` does. Every call holds the registry lock, so a run
 * of the protocol is a sequence of calls; `now` is the clock that a call reads.
 */
module ExprRequests {
  import opened Common
  import opened ExprCodec
  import opened FoundPages

  type PeerKey = Bytes

  datatype Entry = Entry(payloadType: Option<int>, expiresAt: int, blockHash: Option<Digest>, shape: Bytes,
                         sender: Option<PeerKey>, total: Option<nat>, pages: map<nat, seq<Cell>>)

  datatype Outcome = Ignored | Staged | Complete(request: Entry)

  type State = map<Digest, Entry>

  /** `expr_request_ttl` and `storage_found_max_pages`. */
  datatype Config = Config(ttl: int, maxPages: int)

  predicate Live(s: State, id: Digest, now: int) { id in s && s[id].expiresAt > now }

  // ------------------------------------------------------------ the calls, on values

  function Claimed(cfg: Config, s: State, now: int, id: Digest, resolution: Option<int>, blockHash: Option<Digest>, shape: Bytes)
    : (State, bool)
  {
    if Live(s, id, now) then (s, false)
    else (s[id := Entry(resolution, now + cfg.ttl, blockHash, shape, None, None, map[])], true)
  }

  /** A page is accepted on a live request, from the bound sender with the bound total, once. */
  predicate Accepts(cfg: Config, s: State, now: int, id: Digest, peer: PeerKey, page: nat, total: nat)
  {
    && 1 <= page <= total
    && Live(s, id, now)
    && if s[id].sender.None? then total <= cfg.maxPages
       else s[id].sender == Some(peer) && s[id].total == Some(total) && page !in s[id].pages
  }

  function WithPage(cfg: Config, e: Entry, now: int, peer: PeerKey, page: nat, total: nat, exprs: seq<Cell>): Entry
  {
    e.(sender := Some(peer), total := Some(total), pages := e.pages[page := exprs], expiresAt := now + cfg.ttl)
  }

  function PageStaged(cfg: Config, s: State, now: int, id: Digest, peer: PeerKey, page: nat, total: nat, exprs: seq<Cell>)
    : (State, Outcome)
  {
    if !Accepts(cfg, s, now, id, peer, page, total) then (s, Ignored)
    else
      var e := WithPage(cfg, s[id], now, peer, page, total, exprs);
      if |e.pages| == total then (s - {id}, Complete(e)) else (s[id := e], Staged)
  }

  function Rearmed(cfg: Config, s: State, now: int, id: Digest): State
  {
    if Live(s, id, now) then s[id := s[id].(expiresAt := now + cfg.ttl)] else s
  }

  function Pruned(s: State, now: int): State { map id | id in s && s[id].expiresAt > now :: s[id] }

  lemma {:induction false} PrunedIs(s: State, now: int)
    ensures Pruned(s, now) == s - Expired(s, now)
  {
  }

  function Expired(s: State, now: int): set<Digest> { set id | id in s && s[id].expiresAt <= now }

  // ------------------------------------------------------------- the mutable registry

  class PendingExprRequest {
    const payloadType: Option<int>
    const blockHash: Option<Digest>
    const shape: Bytes
    var expiresAt: int
    var sender: Option<PeerKey>
    var total: Option<nat>
    var pages: map<nat, seq<Cell>>

    constructor (payloadType: Option<int>, expiresAt: int, blockHash: Option<Digest>, shape: Bytes)
      ensures Value() == Entry(payloadType, expiresAt, blockHash, shape, None, None, map[])
    {
      this.payloadType, this.blockHash, this.shape := payloadType, blockHash, shape;
      this.expiresAt := expiresAt;
      sender, total, pages := None, None, map[];
    }

    function Value(): Entry
      reads this
    {
      Entry(payloadType, expiresAt, blockHash, shape, sender, total, pages)
    }
  }

  class Registry {
    const config: Config
    var requests: map<Digest, PendingExprRequest>

    ghost predicate Valid()
      reads this`requests
    {
      forall a, b :: a in requests && b in requests && a != b ==> requests[a] != requests[b]
    }

    ghost function View(): State
      reads this`requests, requests.Values
    {
      map id | id in requests :: requests[id].Value()
    }

    constructor (config: Config)
      ensures Valid() && View() == map[] && this.config == config
    {
      this.config := config;
      requests := map[];
    }

    lemma {:induction false} Shown(id: Digest)
      ensures id in View() <==> id in requests
      ensures id in requests ==> View()[id] == requests[id].Value()
    {
    }

    lemma {:induction false} ExpiredShown(now: int)
      ensures Expired(View(), now) == set id | id in requests && requests[id].expiresAt <= now
    {
    }

    method Remove(id: Digest)
      requires Valid()
      modifies this`requests
      ensures Valid() && View() == old(View()) - {id} && requests.Values <= old(requests.Values)
      ensures requests == old(requests) - {id}
    {
      requests := requests - {id};
    }

    /** `_live_entry`. */
    method LiveEntry(id: Digest, now: int) returns (entry: PendingExprRequest?)
      ensures entry == if Live(View(), id, now) then requests[id] else null
    {
      if id !in requests || requests[id].expiresAt <= now {
        return null;
      }
      return requests[id];
    }

    method Register(id: Digest, entry: PendingExprRequest)
      requires Valid() && entry !in requests.Values
      modifies this`requests
      ensures Valid() && View() == old(View())[id := entry.Value()]
    {
      requests := requests[id := entry];
    }

    /** `claim_expr_req`. */
    method ClaimExprReq(now: int, id: Digest, resolution: Option<int>, blockHash: Option<Digest>, shape: Bytes)
        returns (claimed: bool)
      requires Valid()
      modifies this`requests
      ensures Valid() && View() == Claimed(config, old(View()), now, id, resolution, blockHash, shape).0
      ensures claimed == Claimed(config, old(View()), now, id, resolution, blockHash, shape).1
    {
      hide View;
      ghost var s := View();
      Shown(id);
      var live := LiveEntry(id, now);
      if live != null {
        return false;
      }
      var entry := new PendingExprRequest(resolution, now + config.ttl, blockHash, shape);
      assert View() == s;
      Register(id, entry);
      return true;
    }

    /** `stage_found_page`. */
    method StageFoundPage(now: int, id: Digest, peer: PeerKey, page: nat, total: nat, exprs: seq<Cell>)
        returns (outcome: Outcome)
      requires Valid()
      modifies this`requests, requests.Values
      ensures Valid() && requests.Values <= old(requests.Values)
      ensures View() == PageStaged(config, old(View()), now, id, peer, page, total, exprs).0
      ensures outcome == PageStaged(config, old(View()), now, id, peer, page, total, exprs).1
    {
      hide View, WithPage, Valid;
      Shown(id);
      if total < 1 || page < 1 || page > total {
        return Ignored;
      }
      var entry := LiveEntry(id, now);
      if entry == null {
        return Ignored;
      }
      if entry.sender.None? {
        if total > config.maxPages {
          return Ignored;
        }
      } else {
        if entry.sender != Some(peer) || entry.total != Some(total) {
          return Ignored;
        }
        if page in entry.pages {
          return Ignored;
        }
      }
      AddPage(id, entry, now, peer, page, total, exprs);
      Shown(id);
      if |entry.pages| == total {
        Remove(id);
        return Complete(entry.Value());
      }
      return Staged;
    }

    /** The writes of an accepted page on the entry of its request. */
    method AddPage(id: Digest, entry: PendingExprRequest, now: int, peer: PeerKey, page: nat, total: nat, exprs: seq<Cell>)
      requires Valid() && id in requests && requests[id] == entry
      requires entry.sender.Some? ==> entry.sender == Some(peer) && entry.total == Some(total)
      modifies entry
      ensures Valid() && entry.Value() == WithPage(config, old(entry.Value()), now, peer, page, total, exprs)
      ensures View() == old(View())[id := entry.Value()]
    {
      if entry.sender.None? {
        entry.sender := Some(peer);
        entry.total := Some(total);
      }
      entry.pages := entry.pages[page := exprs];
      entry.expiresAt := now + config.ttl;
      assert forall a :: a in requests && a != id ==> requests[a].Value() == old(requests[a].Value());
    }

    /** `rearm_expr_req`. */
    method RearmExprReq(now: int, id: Digest) returns (rearmed: bool)
      requires Valid()
      modifies requests.Values
      ensures Valid() && View() == Rearmed(config, old(View()), now, id)
      ensures rearmed == Live(old(View()), id, now)
    {
      var entry := LiveEntry(id, now);
      if entry == null {
        return false;
      }
      entry.expiresAt := now + config.ttl;
      assert forall a :: a in requests && a != id ==> requests[a].Value() == old(requests[a].Value());
      return true;
    }

    /** `pop_expr_req`. */
    method PopExprReq(now: int, id: Digest) returns (payloadType: Option<int>)
      requires Valid()
      modifies this`requests
      ensures Valid() && View() == old(View()) - {id}
      ensures payloadType == if Live(old(View()), id, now) then old(View())[id].payloadType else None
    {
      if id !in requests {
        return None;
      }
      var entry := requests[id];
      Remove(id);
      if entry.expiresAt <= now {
        return None;
      }
      return entry.payloadType;
    }

    /** `prune_expired_expr_reqs`. */
    method PruneExpired(now: int) returns (removed: nat)
      requires Valid()
      modifies this`requests
      ensures Valid() && View() == Pruned(old(View()), now)
      ensures removed == |Expired(old(View()), now)|
    {
      hide View, Valid;
      ghost var s := View();
      var expired := set id | id in requests && requests[id].expiresAt <= now;
      ExpiredShown(now);
      assert expired == Expired(s, now);
      PrunedIs(s, now);
      var rest := expired;
      assert s - (expired - rest) == s;
      while rest != {}
        invariant Valid() && rest <= expired && View() == s - (expired - rest)
        decreases |rest|
      {
        var id :| id in rest;
        Remove(id);
        assert s - (expired - rest) - {id} == s - (expired - (rest - {id}));
        rest := rest - {id};
      }
      assert expired - rest == expired;
      return |expired|;
    }
  }

  // ------------------------------------------------------------------- runs

  datatype Event =
    | Claim(now: int, id: Digest, resolution: Option<int>, blockHash: Option<Digest>, shape: Bytes)
    | PageIn(now: int, id: Digest, peer: PeerKey, page: nat, total: nat, exprs: seq<Cell>)
    | Rearm(now: int, id: Digest)
    | Pop(id: Digest)
    | Prune(now: int)

  function Step(cfg: Config, s: State, e: Event): (State, Outcome)
  {
    match e
    case Claim(now, id, resolution, blockHash, shape) => (Claimed(cfg, s, now, id, resolution, blockHash, shape).0, Ignored)
    case PageIn(now, id, peer, page, total, exprs) => PageStaged(cfg, s, now, id, peer, page, total, exprs)
    case Rearm(now, id) => (Rearmed(cfg, s, now, id), Ignored)
    case Pop(id) => (s - {id}, Ignored)
    case Prune(now) => (Pruned(s, now), Ignored)
  }

  /** The registry after a run that starts empty. */
  function After(cfg: Config, events: seq<Event>): State
  {
    if events == [] then map[] else Step(cfg, After(cfg, events[..|events| - 1]), events[|events| - 1]).0
  }

  /** How the last event of a run went. */
  function LastOutcome(cfg: Config, events: seq<Event>): Outcome
    requires events != []
  {
    Step(cfg, After(cfg, events[..|events| - 1]), events[|events| - 1]).1
  }

  /** What every entry keeps: staged pages are numbered within the bound total, and at least one is missing. */
  predicate Sound(e: Entry)
  {
    && (e.sender.None? <==> e.total.None?)
    && (e.sender.None? ==> e.pages == map[])
    && (e.total.Some? ==> |e.pages| < e.total.value && forall k :: k in e.pages ==> 1 <= k <= e.total.value)
  }

  lemma {:induction false} EveryEntrySound(cfg: Config, events: seq<Event>)
    ensures forall id :: id in After(cfg, events) ==> Sound(After(cfg, events)[id])
  {
    if events != [] {
      var n := |events| - 1;
      EveryEntrySound(cfg, events[..n]);
      StepKeepsSound(cfg, After(cfg, events[..n]), events[n]);
    }
  }

  lemma {:induction false} StepKeepsSound(cfg: Config, s: State, e: Event)
    requires forall id :: id in s ==> Sound(s[id])
    ensures forall id :: id in Step(cfg, s, e).0 ==> Sound(Step(cfg, s, e).0[id])
    ensures Step(cfg, s, e).1.Complete? ==> FullSet(Step(cfg, s, e).1.request)
  {
    if e.PageIn? && Accepts(cfg, s, e.now, e.id, e.peer, e.page, e.total) {
      var entry := s[e.id];
      var next := WithPage(cfg, entry, e.now, e.peer, e.page, e.total, e.exprs);
      assert Sound(entry);
      assert next.pages.Keys == entry.pages.Keys + {e.page};
      assert |next.pages.Keys| == |entry.pages.Keys| + 1;
      if |next.pages| == e.total {
        AllNumbers(next.pages.Keys, e.total);
      }
    }
  }

  /** A completed request holds exactly the pages 1 to total. */
  ghost predicate FullSet(e: Entry)
  {
    && e.sender.Some? && e.total.Some? && e.total.value >= 1
    && e.pages.Keys == Numbers(e.total.value)
  }

  function Numbers(n: nat): (numbers: set<nat>)
    ensures forall k :: k in numbers <==> 1 <= k <= n
  {
    if n == 0 then {} else Numbers(n - 1) + {n}
  }

  lemma {:induction false} NumbersCount(n: nat)
    ensures |Numbers(n)| == n
  {
    if n > 0 {
      NumbersCount(n - 1);
      assert n !in Numbers(n - 1);
      assert Numbers(n) == Numbers(n - 1) + {n};
    }
  }

  lemma {:induction false} AllNumbers(keys: set<nat>, n: nat)
    requires |keys| == n && keys <= Numbers(n)
    ensures keys == Numbers(n)
  {
    NumbersCount(n);
    var rest := Numbers(n) - keys;
    assert Numbers(n) == keys + rest;
    assert |Numbers(n)| == |keys| + |rest|;
    assert rest == {};
  }

  /** A claim succeeds unless the id is pending and not expired, and then starts with no sender, total or page. */
  lemma {:induction false} ClaimRule(cfg: Config, s: State, now: int, id: Digest, resolution: Option<int>,
                                     blockHash: Option<Digest>, shape: Bytes)
    ensures var (after, claimed) := Claimed(cfg, s, now, id, resolution, blockHash, shape);
      && (claimed <==> id !in s || s[id].expiresAt <= now)
      && (!claimed ==> after == s)
      && (claimed ==>
            && after.Keys == s.Keys + {id} && (forall k :: k in s && k != id ==> after[k] == s[k])
            && after[id].expiresAt == now + cfg.ttl && after[id].payloadType == resolution
            && after[id].blockHash == blockHash && after[id].shape == shape
            && after[id].sender == None && after[id].total == None && after[id].pages == map[])
  {
  }

  /** Re-arming and pruning: only requests that are not expired are prolonged, and only expired ones go. */
  lemma {:induction false} ExpiryRule(cfg: Config, s: State, now: int, id: Digest)
    ensures forall k :: k in Pruned(s, now) <==> k in s && now < s[k].expiresAt
    ensures forall k :: k in Pruned(s, now) ==> Pruned(s, now)[k] == s[k]
    ensures var after := Rearmed(cfg, s, now, id);
      && after.Keys == s.Keys && (forall k :: k in s && k != id ==> after[k] == s[k])
      && (id in s ==> after[id] == s[id].(expiresAt := if now < s[id].expiresAt then now + cfg.ttl else s[id].expiresAt))
  {
  }

  /** Which page is accepted, and all that it changes. */
  lemma {:induction false} StagingRule(cfg: Config, s: State, now: int, id: Digest, peer: PeerKey, page: nat, total: nat,
                                       exprs: seq<Cell>)
    requires id in s ==> Sound(s[id])
    ensures var (after, outcome) := PageStaged(cfg, s, now, id, peer, page, total, exprs);
      var accepted :=
        && id in s && now < s[id].expiresAt && page >= 1 && page <= total
        && (s[id].sender == None ==> total <= cfg.maxPages)
        && (s[id].sender != None ==> s[id].sender == Some(peer) && s[id].total == Some(total) && page !in s[id].pages.Keys);
      && (!accepted ==> outcome == Ignored && after == s)
      && (accepted ==>
            && var next := s[id].(sender := Some(peer), total := Some(total), pages := s[id].pages[page := exprs],
                                  expiresAt := now + cfg.ttl);
            && (forall k :: k in s && k != id ==> k in after && after[k] == s[k])
            && (if |s[id].pages| + 1 == total then outcome == Complete(next) && after.Keys == s.Keys - {id}
                else outcome == Staged && after.Keys == s.Keys && after[id] == next))
  {
    if id in s {
      var pages := s[id].pages;
      assert pages[page := exprs].Keys == pages.Keys + {page};
    }
  }

  // --------------------------------------------------------------- at most once

  function Completions(cfg: Config, events: seq<Event>, id: Digest): nat
  {
    if events == [] then 0
    else
      Completions(cfg, events[..|events| - 1], id)
      + (if events[|events| - 1].PageIn? && events[|events| - 1].id == id && LastOutcome(cfg, events).Complete? then 1 else 0)
  }

  /** The claims of an id that registered a request. */
  function Claims(cfg: Config, events: seq<Event>, id: Digest): nat
  {
    if events == [] then 0
    else
      var (before, e) := (After(cfg, events[..|events| - 1]), events[|events| - 1]);
      Claims(cfg, events[..|events| - 1], id) + (if e.Claim? && e.id == id && !Live(before, id, e.now) then 1 else 0)
  }

  lemma {:induction false} StepCounts(cfg: Config, s: State, e: Event, id: Digest)
    ensures id in Step(cfg, s, e).0 && id !in s ==> e.Claim? && e.id == id && !Live(s, id, e.now)
    ensures e.PageIn? && e.id == id && Step(cfg, s, e).1.Complete? ==> id in s && id !in Step(cfg, s, e).0
  {
  }

  /** A claimed request completes at most once, whatever else arrives; while it is pending it has not. */
  lemma {:induction false} CompletesAtMostOnce(cfg: Config, events: seq<Event>, id: Digest)
    ensures Completions(cfg, events, id) + (if id in After(cfg, events) then 1 else 0) <= Claims(cfg, events, id)
  {
    hide Step, Live;
    if events != [] {
      var n := |events| - 1;
      CompletesAtMostOnce(cfg, events[..n], id);
      StepCounts(cfg, After(cfg, events[..n]), events[n], id);
    }
  }

  lemma {:induction false} RegisteredBetween(cfg: Config, events: seq<Event>, id: Digest, i: nat, j: nat) returns (k: nat)
    requires i <= j <= |events| && id !in After(cfg, events[..i]) && id in After(cfg, events[..j])
    ensures i <= k < j && events[k].Claim? && events[k].id == id && !Live(After(cfg, events[..k]), id, events[k].now)
    decreases j - i
  {
    hide Step, Live, After;
    assert i < j;
    assert events[..j] == events[..j - 1] + [events[j - 1]];
    AfterOneMore(cfg, events[..j - 1], events[j - 1]);
    StepCounts(cfg, After(cfg, events[..j - 1]), events[j - 1], id);
    if id in After(cfg, events[..j - 1]) {
      k := RegisteredBetween(cfg, events, id, i, j - 1);
    } else {
      k := j - 1;
    }
  }

  /** Between two completions of an id lies a claim that registered it anew, and before the first one another. */
  lemma {:induction false} ClaimBeforeCompletion(cfg: Config, events: seq<Event>, id: Digest, i: nat, j: nat) returns (k: nat)
    requires i < j < |events| && events[j].PageIn? && events[j].id == id
    requires Step(cfg, After(cfg, events[..j]), events[j]).1.Complete?
    requires i == 0 || (events[i].PageIn? && events[i].id == id && Step(cfg, After(cfg, events[..i]), events[i]).1.Complete?)
    ensures i <= k < j && events[k].Claim? && events[k].id == id && !Live(After(cfg, events[..k]), id, events[k].now)
    ensures events[i].PageIn? ==> i < k
  {
    hide Step, Live, After;
    StepCounts(cfg, After(cfg, events[..j]), events[j], id);
    if i == 0 && !(events[0].PageIn? && events[0].id == id && Step(cfg, After(cfg, events[..0]), events[0]).1.Complete?) {
      NothingPending(cfg, events);
      k := RegisteredBetween(cfg, events, id, 0, j);
    } else {
      assert events[..i + 1] == events[..i] + [events[i]];
      AfterOneMore(cfg, events[..i], events[i]);
      StepCounts(cfg, After(cfg, events[..i]), events[i], id);
      k := RegisteredBetween(cfg, events, id, i + 1, j);
    }
  }

  lemma {:induction false} NothingPending(cfg: Config, events: seq<Event>)
    ensures After(cfg, events[..0]) == map[]
  {
  }

  // ------------------------------------------------------------------- liveness

  /** The event finds the request of an id live, if it concerns it, and does not pop it. */
  predicate Undisturbed(s: State, e: Event, id: Digest)
  {
    match e
    case Pop(other) => other != id
    case Prune(now) => id in s ==> Live(s, id, now)
    case Claim(now, other, _, _, _) => id in s && other == id ==> Live(s, id, now)
    case PageIn(now, other, _, _, _, _) => id in s && other == id ==> Live(s, id, now)
    case Rearm(now, other) => id in s && other == id ==> Live(s, id, now)
  }

  predicate IsPage(e: Event, id: Digest, peer: PeerKey, total: nat, page: nat)
  {
    e.PageIn? && e.id == id && e.peer == peer && e.total == total && e.page == page
  }

  /** The request is pending, bound to a sender and a total, and holds these pages. */
  ghost predicate Holds(s: State, id: Digest, peer: PeerKey, total: nat, pages: set<nat>)
  {
    id in s && s[id].sender == Some(peer) && s[id].total == Some(total) && pages <= s[id].pages.Keys
  }

  lemma {:induction false} StepAdvances(cfg: Config, s: State, e: Event, id: Digest, peer: PeerKey, total: nat, pages: set<nat>)
    requires Holds(s, id, peer, total, pages) && Undisturbed(s, e, id)
    ensures var (after, outcome) := Step(cfg, s, e);
      || (e.PageIn? && e.id == id && outcome.Complete?)
      || Holds(after, id, peer, total, pages + set page | 1 <= page <= total && IsPage(e, id, peer, total, page))
  {
    hide Step;
    if e.PageIn? && e.id == id {
      PageAdvances(cfg, s, e, peer, total, pages);
    } else {
      OthersKeep(cfg, s, e, id, peer, total, pages);
      assert (set page | 1 <= page <= total && IsPage(e, id, peer, total, page)) == {};
      assert pages + {} == pages;
    }
  }

  lemma {:induction false} OthersKeep(cfg: Config, s: State, e: Event, id: Digest, peer: PeerKey, total: nat, pages: set<nat>)
    requires Holds(s, id, peer, total, pages) && Undisturbed(s, e, id) && !(e.PageIn? && e.id == id)
    ensures Holds(Step(cfg, s, e).0, id, peer, total, pages)
  {
    hide WithPage;
  }

  lemma {:induction false} PageAdvances(cfg: Config, s: State, e: Event, peer: PeerKey, total: nat, pages: set<nat>)
    requires e.PageIn? && Holds(s, e.id, peer, total, pages) && Live(s, e.id, e.now)
    ensures var (after, outcome) := Step(cfg, s, e);
      || outcome.Complete?
      || Holds(after, e.id, peer, total, pages + set page | 1 <= page <= total && IsPage(e, e.id, peer, total, page))
  {
    var added := set page | 1 <= page <= total && IsPage(e, e.id, peer, total, page);
    assert added <= {e.page};
    if Accepts(cfg, s, e.now, e.id, e.peer, e.page, e.total) {
      var next := WithPage(cfg, s[e.id], e.now, e.peer, e.page, e.total, e.exprs);
      assert next.pages.Keys == s[e.id].pages.Keys + {e.page};
      assert next.sender == Some(peer) && next.total == Some(total);
    } else {
      assert added <= s[e.id].pages.Keys;
    }
  }

  /** The pages of a sender under a total that a run of events brings. */
  ghost function Brought(events: seq<Event>, id: Digest, peer: PeerKey, total: nat): set<nat>
  {
    set page | 1 <= page <= total && Arrives(events, id, peer, total, page)
  }

  ghost predicate Arrives(events: seq<Event>, id: Digest, peer: PeerKey, total: nat, page: nat)
  {
    exists i :: 0 <= i < |events| && IsPage(events[i], id, peer, total, page)
  }

  lemma {:induction false} BroughtOneMore(events: seq<Event>, e: Event, id: Digest, peer: PeerKey, total: nat)
    ensures Brought(events + [e], id, peer, total)
         == Brought(events, id, peer, total) + set page | 1 <= page <= total && IsPage(e, id, peer, total, page)
  {
    hide IsPage;
    var all := events + [e];
    forall page | 1 <= page <= total && IsPage(e, id, peer, total, page)
      ensures page in Brought(all, id, peer, total)
    {
      assert all[|events|] == e;
    }
    forall page | page in Brought(events, id, peer, total)
      ensures page in Brought(all, id, peer, total)
    {
      var i :| 0 <= i < |events| && IsPage(events[i], id, peer, total, page);
      assert all[i] == events[i];
    }
  }

  /** The request of an id completed at some event of the second part of a run. */
  ghost predicate CompletedIn(cfg: Config, before: seq<Event>, later: seq<Event>, id: Digest)
  {
    exists i :: 0 <= i < |later| && CompletesAt(cfg, before, later, id, i)
  }

  ghost predicate CompletesAt(cfg: Config, before: seq<Event>, later: seq<Event>, id: Digest, i: nat)
    requires i < |later|
  {
    later[i].PageIn? && later[i].id == id && Step(cfg, After(cfg, before + later[..i]), later[i]).1.Complete?
  }

  ghost predicate NeverDisturbed(cfg: Config, before: seq<Event>, later: seq<Event>, id: Digest)
  {
    forall i :: 0 <= i < |later| ==> Undisturbed(After(cfg, before + later[..i]), later[i], id)
  }

  lemma {:induction false} PagesGather(cfg: Config, before: seq<Event>, later: seq<Event>, id: Digest, peer: PeerKey,
                                       total: nat, pages: set<nat>)
    requires Holds(After(cfg, before), id, peer, total, pages) && NeverDisturbed(cfg, before, later, id)
    ensures CompletedIn(cfg, before, later, id)
         || Holds(After(cfg, before + later), id, peer, total, pages + Brought(later, id, peer, total))
    decreases |later|
  {
    hide Step, Undisturbed, Holds, Brought, After, CompletedIn, CompletesAt, NeverDisturbed, IsPage;
    if later == [] {
      assert before + later == before;
      NothingBrought(id, peer, total);
      assert pages + Brought(later, id, peer, total) == pages;
    } else {
      var n := |later| - 1;
      var (front, e) := (later[..n], later[n]);
      var s := After(cfg, before + front);
      assert later == front + [e] && before + later == before + front + [e];
      AfterOneMore(cfg, before + front, e);
      FrontOfRun(cfg, before, later, id, n);
      PagesGather(cfg, before, front, id, peer, total, pages);
      if !CompletedIn(cfg, before, front, id) {
        var held := pages + Brought(front, id, peer, total);
        StepAdvances(cfg, s, e, id, peer, total, held);
        BroughtOneMore(front, e, id, peer, total);
        var step := set page | 1 <= page <= total && IsPage(e, id, peer, total, page);
        assert held + step == pages + Brought(later, id, peer, total);
        if e.PageIn? && e.id == id && Step(cfg, s, e).1.Complete? {
          CompletedNow(cfg, before, later, id, n);
        }
      }
    }
  }

  lemma {:induction false} AfterOneMore(cfg: Config, events: seq<Event>, e: Event)
    ensures After(cfg, events + [e]) == Step(cfg, After(cfg, events), e).0
  {
    hide Step;
    assert (events + [e])[..|events + [e]| - 1] == events;
  }

  lemma {:induction false} CompletedNow(cfg: Config, before: seq<Event>, later: seq<Event>, id: Digest, i: nat)
    requires i < |later| && later[i].PageIn? && later[i].id == id
    requires Step(cfg, After(cfg, before + later[..i]), later[i]).1.Complete?
    ensures CompletedIn(cfg, before, later, id)
  {
    hide Step, After;
    assert CompletesAt(cfg, before, later, id, i);
  }

  lemma {:induction false} NothingBrought(id: Digest, peer: PeerKey, total: nat)
    ensures Brought([], id, peer, total) == {}
  {
  }

  lemma {:induction false} FrontOfRun(cfg: Config, before: seq<Event>, later: seq<Event>, id: Digest, n: nat)
    requires NeverDisturbed(cfg, before, later, id) && n < |later|
    ensures NeverDisturbed(cfg, before, later[..n], id) && Undisturbed(After(cfg, before + later[..n]), later[n], id)
    ensures CompletedIn(cfg, before, later[..n], id) ==> CompletedIn(cfg, before, later, id)
  {
    hide Step, Undisturbed, After;
    forall i | 0 <= i < n
      ensures later[..n][..i] == later[..i] && later[..n][i] == later[i]
    {
    }
    if CompletedIn(cfg, before, later[..n], id) {
      var i :| 0 <= i < n && CompletesAt(cfg, before, later[..n], id, i);
      assert CompletesAt(cfg, before, later, id, i);
    }
  }

  /**
   * Liveness: once a request is bound to a sender and a total, and every page that it lacks arrives from
   * that sender under that total while it is live, with no pop between, it completes.
   */
  lemma {:induction false} AllPagesComplete(cfg: Config, before: seq<Event>, later: seq<Event>, id: Digest, peer: PeerKey, total: nat)
    requires var s := After(cfg, before);
      && id in s && s[id].sender == Some(peer) && s[id].total == Some(total)
      && NeverDisturbed(cfg, before, later, id)
      && forall page :: 1 <= page <= total && page !in s[id].pages ==>
           Arrives(later, id, peer, total, page)
    ensures exists i :: 0 <= i < |later| && later[i].PageIn? && later[i].id == id
                     && Step(cfg, After(cfg, before + later[..i]), later[i]).1.Complete?
  {
    hide Step, Undisturbed, Arrives, After;
    var held := After(cfg, before)[id].pages.Keys;
    PagesGather(cfg, before, later, id, peer, total, held);
    if !CompletedIn(cfg, before, later, id) {
      EveryEntrySound(cfg, before + later);
      var e := After(cfg, before + later)[id];
      assert Sound(e);
      NumbersCount(total);
      assert Numbers(total) <= held + Brought(later, id, peer, total);
      Subset(Numbers(total), e.pages.Keys);
      assert false;
    }
  }

  lemma {:induction false} Subset(a: set<nat>, b: set<nat>)
    requires a <= b
    ensures |a| <= |b|
  {
    assert b == a + (b - a);
  }

  // ------------------------------------------------------------- the joined pages

  /** The exprs of pages 1 to n, in page order. */
  function Joined(pages: map<nat, seq<Cell>>, n: nat): seq<Cell>
    requires Numbers(n) <= pages.Keys
  {
    if n == 0 then [] else
      assert n in Numbers(n) && Numbers(n - 1) <= Numbers(n);
      Joined(pages, n - 1) + pages[n]
  }

  lemma {:induction false} NextNumber(i: nat, total: nat)
    requires i < total
    ensures var rest := Numbers(total) - Numbers(i);
      && i + 1 in rest && (forall m :: m in rest ==> i + 1 <= m)
      && rest - {i + 1} == Numbers(total) - Numbers(i + 1)
  {
  }

  lemma {:induction false} JoinedNothing(pages: map<nat, seq<Cell>>)
    ensures Numbers(0) == {} && Joined(pages, 0) == []
  {
  }

  lemma {:induction false} JoinedNext(pages: map<nat, seq<Cell>>, i: nat, total: nat)
    requires i < total && Numbers(total) <= pages.Keys
    ensures Numbers(i) <= pages.Keys && Numbers(i + 1) <= pages.Keys
    ensures i + 1 in pages && Joined(pages, i + 1) == Joined(pages, i) + pages[i + 1]
  {
  }

  /** The join over the sorted page numbers. */
  method JoinPages(pages: map<nat, seq<Cell>>, ghost total: nat) returns (exprs: seq<Cell>)
    requires pages.Keys == Numbers(total)
    ensures exprs == Joined(pages, total)
  {
    hide Numbers, Joined;
    JoinedNothing(pages);
    exprs := [];
    var rest := pages.Keys;
    ghost var i := 0;
    while rest != {}
      invariant i <= total && rest == Numbers(total) - Numbers(i)
      invariant Numbers(i) <= pages.Keys && exprs == Joined(pages, i)
      decreases |rest|
    {
      assert i < total by {
        var k :| k in rest;
      }
      NextNumber(i, total);
      var n :| n in rest && forall m :: m in rest ==> n <= m;
      JoinedNext(pages, i, total);
      exprs := exprs + pages[n];
      rest := rest - {n};
      i := i + 1;
    }
    assert i < total ==> i + 1 in rest;
  }

  /**
   * Every page that a peer sends for an id under the reply's page count is the one of the reply;
   * pages that it sends with another total may hold anything.
   */
  ghost predicate Honest(events: seq<Event>, id: Digest, peer: PeerKey, groups: seq<seq<Cell>>)
  {
    forall i :: 0 <= i < |events| ==> HonestEvent(events[i], id, peer, groups)
  }

  ghost predicate HonestEvent(e: Event, id: Digest, peer: PeerKey, groups: seq<seq<Cell>>)
  {
    e.PageIn? && e.id == id && e.peer == peer && e.total == |groups| && 1 <= e.page <= e.total ==>
      e.exprs == groups[e.page - 1]
  }

  /** Replaying the encoded pages of a reply, in whatever order, is honest. */
  lemma {:induction false} EncodedPagesAreHonest(payloads: seq<Bytes>, groups: seq<seq<Cell>>, exprs: seq<Cell>, j: nat,
                                                 e: Event, id: Digest, peer: PeerKey)
    requires Greedy(groups, Packable(exprs)) && |groups| <= 0xFFFF && ArePayloads(payloads, groups) && j < |groups|
    requires e.PageIn? && ParsePage(payloads[j]) == Ok(Page(e.page, e.total, e.exprs))
    ensures e.total == |groups| && 1 <= e.page <= e.total && HonestEvent(e, id, peer, groups)
  {
    hide ParsePage, PageBytes, FitPage, Greedy, ArePayloads, Packable;
    GreedyFits(groups, Packable(exprs), j);
    PayloadAt(payloads, groups, j);
    DecodeBuiltPage(j + 1, |groups|, groups[j]);
  }

  ghost predicate StagedFrom(e: Entry, groups: seq<seq<Cell>>)
  {
    e.total == Some(|groups|) ==>
      forall k :: k in e.pages ==> 1 <= k <= |groups| && e.pages[k] == groups[k - 1]
  }

  ghost predicate SenderStaged(s: State, id: Digest, peer: PeerKey, groups: seq<seq<Cell>>)
  {
    id in s && s[id].sender == Some(peer) ==> StagedFrom(s[id], groups)
  }

  lemma {:induction false} StepStages(cfg: Config, s: State, e: Event, id: Digest, peer: PeerKey, groups: seq<seq<Cell>>)
    requires SenderStaged(s, id, peer, groups) && HonestEvent(e, id, peer, groups)
    requires id in s ==> Sound(s[id])
    ensures SenderStaged(Step(cfg, s, e).0, id, peer, groups)
    ensures e.PageIn? && e.id == id && Step(cfg, s, e).1.Complete? && Step(cfg, s, e).1.request.sender == Some(peer) ==>
              StagedFrom(Step(cfg, s, e).1.request, groups)
  {
    if e.PageIn? && e.id == id && e.peer == peer && Accepts(cfg, s, e.now, id, peer, e.page, e.total) {
      assert StagedFrom(WithPage(cfg, s[id], e.now, peer, e.page, e.total, e.exprs), groups);
    }
  }

  lemma {:induction false} PagesOfSender(cfg: Config, events: seq<Event>, id: Digest, peer: PeerKey, groups: seq<seq<Cell>>)
    requires Honest(events, id, peer, groups)
    ensures SenderStaged(After(cfg, events), id, peer, groups)
    ensures events != [] && events[|events| - 1].PageIn? && events[|events| - 1].id == id ==>
              var o := LastOutcome(cfg, events);
              o.Complete? && o.request.sender == Some(peer) ==> StagedFrom(o.request, groups)
  {
    hide Step, StagedFrom, Sound;
    if events != [] {
      var n := |events| - 1;
      PagesOfSender(cfg, events[..n], id, peer, groups);
      EveryEntrySound(cfg, events[..n]);
      assert HonestEvent(events[n], id, peer, groups);
      StepStages(cfg, After(cfg, events[..n]), events[n], id, peer, groups);
    }
  }

  lemma {:induction false} JoinedIsFlat(pages: map<nat, seq<Cell>>, groups: seq<seq<Cell>>, n: nat)
    requires n <= |groups| && Numbers(n) <= pages.Keys
    requires forall k :: 1 <= k <= n ==> k in pages && pages[k] == groups[k - 1]
    ensures Joined(pages, n) == Flatten(groups[..n])
  {
    if n > 0 {
      assert Numbers(n - 1) <= Numbers(n);
      JoinedIsFlat(pages, groups, n - 1);
      assert groups[..n][..n - 1] == groups[..n - 1];
    } else {
      assert groups[..0] == [];
    }
  }

  /**
   * Whenever a request completes, in any run: it holds every page number once, and if it is bound to
   * the sender and the page count of a greedy reply, the join is the packable exprs of that reply in
   * their order. The sender may send its pages in any order and repeat them, and mix them with any
   * pages under wrong totals; other senders may send anything.
   */
  lemma {:induction false} CompletedReplyIsWhole(cfg: Config, events: seq<Event>, peer: PeerKey, exprs: seq<Cell>,
                                                 groups: seq<seq<Cell>>)
    requires events != [] && LastOutcome(cfg, events).Complete?
    requires events[|events| - 1].PageIn?
    requires Greedy(groups, Packable(exprs)) && Honest(events, events[|events| - 1].id, peer, groups)
    ensures var request := LastOutcome(cfg, events).request;
      && FullSet(request)
      && (request.sender == Some(peer) && request.total == Some(|groups|) ==>
            Joined(request.pages, |groups|) == Packable(exprs))
  {
    hide Greedy, Packable;
    var n := |events| - 1;
    EveryEntrySound(cfg, events[..n]);
    StepKeepsSound(cfg, After(cfg, events[..n]), events[n]);
    var request := LastOutcome(cfg, events).request;
    PagesOfSender(cfg, events, events[n].id, peer, groups);
    if request.sender == Some(peer) && request.total == Some(|groups|) {
      JoinedIsFlat(request.pages, groups, |groups|);
      assert groups[..|groups|] == groups;
      GreedyIsFlat(groups, Packable(exprs));
    }
  }

  lemma {:induction false} PayloadAt(payloads: seq<Bytes>, groups: seq<seq<Cell>>, j: nat)
    requires ArePayloads(payloads, groups) && j < |groups|
    ensures j < |payloads| && PageBytes(j + 1, |groups|, groups[j]) == Some(payloads[j])
  {
    hide PageBytes;
  }

  lemma {:induction false} GreedyFits(groups: seq<seq<Cell>>, items: seq<Cell>, j: nat)
    requires Greedy(groups, items) && j < |groups|
    ensures FitPage(groups[j])
  {
  }

  lemma {:induction false} GreedyIsFlat(groups: seq<seq<Cell>>, items: seq<Cell>)
    requires Greedy(groups, items)
    ensures Flatten(groups) == items
  {
  }
}
