/** The poller listener's two caches, used nonces and sessions, against plain histories of the calls made. */
module PollerSessions {
  import opened Wrappers
  import opened Clock

  /** What a nonce is used for; the server hashes it, which is taken to keep different triples apart. */
  datatype NonceKey = NonceKey(tenant: int, poller: string, nonce: string)

  datatype Session = Session(tenant: int, poller: int, token: string, expires: Option<int>)

  datatype Verdict = Granted | MissingToken | NoSession | WrongTenant | WrongToken

  const NONCE_TTL := 60 * SECOND
  const GC_INTERVAL := 30 * SECOND

  // ---- specification of the cache operations ----

  /** The nonce cache: each key's expiry, and the time after which the next call collects. */
  datatype NonceCache = NonceCache(entries: map<NonceKey, int>, gc: Option<int>)

  const EMPTY_CACHE := NonceCache(map[], None)

  predicate CollectionDue(c: NonceCache, now: int) {
    c.gc.None? || now > c.gc.value
  }

  function Unexpired(entries: map<NonceKey, int>, now: int): map<NonceKey, int> {
    map k | k in entries && now <= entries[k] :: entries[k]
  }

  function Collected(c: NonceCache, now: int): NonceCache {
    if CollectionDue(c, now) then NonceCache(Unexpired(c.entries, now), Some(now + GC_INTERVAL)) else c
  }

  predicate Accepts(c: NonceCache, key: NonceKey, now: int) {
    var entries := Collected(c, now).entries;
    key !in entries || now >= entries[key]
  }

  function AfterUse(c: NonceCache, key: NonceKey, now: int): NonceCache {
    var c' := Collected(c, now);
    if Accepts(c, key, now) then c'.(entries := c'.entries[key := now + NONCE_TTL]) else c'
  }

  function LiveSessions(sessions: map<int, Session>, now: int): map<int, Session> {
    map p | p in sessions && (sessions[p].expires.None? || now <= sessions[p].expires.value) :: sessions[p]
  }

  function CheckSession(sessions: map<int, Session>, tenant: int, poller: int, token: string): Verdict {
    if poller !in sessions then NoSession
    else if sessions[poller].tenant != tenant then WrongTenant
    else if sessions[poller].token != token then WrongToken
    else Granted
  }

  class PollerServer {
    var sessions: map<int, Session>
    var nonces: map<NonceKey, int>
    var nonceGC: Option<int>

    function Cache(): NonceCache
      reads this
    {
      NonceCache(nonces, nonceGC)
    }

    constructor ()
      ensures sessions == map[] && Cache() == EMPTY_CACHE
    {
      sessions, nonces, nonceGC := map[], map[], None;
    }

    method TryUseNonce(key: NonceKey, now: int) returns (ok: bool)
      modifies this`nonces, this`nonceGC
      ensures ok <==> key !in old(nonces) || now >= old(nonces)[key]
      ensures ok ==> key in nonces && nonces[key] == now + 60 * SECOND
      ensures
        var due := old(nonceGC).None? || now > old(nonceGC).value;
        && nonceGC == (if due then Some(now + 30 * SECOND) else old(nonceGC))
        && forall k | k != key || !ok ::
             && (k in nonces <==> k in old(nonces) && !(due && now > old(nonces)[k]))
             && (k in nonces ==> nonces[k] == old(nonces)[k])
      ensures ok == Accepts(old(Cache()), key, now)
      ensures Cache() == AfterUse(old(Cache()), key, now)
    {
      ghost var before := Cache();
      if nonceGC.None? || now > nonceGC.value {
        var todo := nonces.Keys;
        while todo != {}
          invariant todo <= before.entries.Keys
          invariant forall k :: k in nonces <==> k in before.entries && (k in todo || now <= before.entries[k])
          invariant forall k | k in nonces :: nonces[k] == before.entries[k]
          decreases |todo|
        {
          var k := AnyOf(todo);
          if now > nonces[k] {
            nonces := nonces - {k};
          }
          todo := todo - {k};
        }
        nonceGC := Some(now + GC_INTERVAL);
        SameMap(nonces, Unexpired(before.entries, now));
      }
      assert Cache() == Collected(before, now);
      if key in nonces && now < nonces[key] {
        return false;
      }
      nonces := nonces[key := now + NONCE_TTL];
      ok := true;
    }

    method RecordSession(tenant: int, poller: int, token: string, expires: Option<int>)
      modifies this`sessions
      ensures sessions == old(sessions)[poller := Session(tenant, poller, token, expires)]
    {
      sessions := sessions[poller := Session(tenant, poller, token, expires)];
    }

    method PurgeExpiredSessions(now: int)
      modifies this`sessions
      ensures forall p :: p in sessions <==>
                p in old(sessions) && !(old(sessions)[p].expires.Some? && now > old(sessions)[p].expires.value)
      ensures forall p | p in sessions :: sessions[p] == old(sessions)[p]
      ensures sessions == LiveSessions(old(sessions), now)
    {
      ghost var before := sessions;
      var todo := sessions.Keys;
      while todo != {}
        invariant todo <= before.Keys
        invariant forall p :: p in sessions <==>
                    p in before && (p in todo || before[p].expires.None? || now <= before[p].expires.value)
        invariant forall p | p in sessions :: sessions[p] == before[p]
        decreases |todo|
      {
        var p := AnyOf(todo);
        if sessions[p].expires.Some? && now > sessions[p].expires.value {
          sessions := sessions - {p};
        }
        todo := todo - {p};
      }
      forall p: int
        ensures p in sessions <==> p in LiveSessions(before, now)
        ensures p in sessions ==> sessions[p] == LiveSessions(before, now)[p]
      {
        assert p !in todo;
      }
      SameMap(sessions, LiveSessions(before, now));
    }

    method RequireSession(tenant: int, poller: int, token: string, now: int) returns (v: Verdict)
      modifies this`sessions
      ensures token == "" ==> v == MissingToken && sessions == old(sessions)
      ensures token != "" ==>
                var live := poller in old(sessions) && (
                  old(sessions)[poller].expires.None? || now <= old(sessions)[poller].expires.value);
                v == (if !live then NoSession
                      else if old(sessions)[poller].tenant != tenant then WrongTenant
                      else if old(sessions)[poller].token != token then WrongToken
                      else Granted)
      ensures token != "" ==> v == CheckSession(LiveSessions(old(sessions), now), tenant, poller, token)
      ensures token != "" ==> sessions == LiveSessions(old(sessions), now)
    {
      if token == "" {
        return MissingToken;
      }
      PurgeExpiredSessions(now);
      if poller !in sessions {
        return NoSession;
      }
      if sessions[poller].tenant != tenant {
        return WrongTenant;
      }
      if sessions[poller].token != token {
        return WrongToken;
      }
      v := Granted;
    }
  }

  // ---- the nonce cache against its history ----

  datatype Use = Use(key: NonceKey, now: int)

  /** The cache after the first `n` calls. */
  function CacheAfter(uses: seq<Use>, n: nat): NonceCache
    requires n <= |uses|
  {
    if n == 0 then EMPTY_CACHE else AfterUse(CacheAfter(uses, n - 1), uses[n - 1].key, uses[n - 1].now)
  }

  /** The cache's answer to the k-th call. */
  predicate Answer(uses: seq<Use>, k: nat)
    requires k < |uses|
  {
    Accepts(CacheAfter(uses, k), uses[k].key, uses[k].now)
  }

  /** The promise: accepted exactly if no accepted use of the same key lies less than 60 seconds back. */
  ghost predicate Fresh(uses: seq<Use>, k: nat)
    requires k < |uses|
    decreases k
  {
    forall i | 0 <= i < k && uses[i].key == uses[k].key && Fresh(uses, i) :: uses[k].now - uses[i].now >= 60 * SECOND
  }

  ghost predicate Ascending(uses: seq<Use>) {
    forall i, j | 0 <= i < j < |uses| :: uses[i].now <= uses[j].now
  }

  /** When the latest collection ran. */
  function LastCollection(c: NonceCache): Option<int> {
    if c.gc.None? then None else Some(c.gc.value - GC_INTERVAL)
  }

  ghost predicate NotBehind(c: NonceCache, now: int) {
    LastCollection(c).Some? ==> now >= LastCollection(c).value
  }

  ghost predicate KeepsUp(uses: seq<Use>, k: nat)
    requires k < |uses|
  {
    NotBehind(CacheAfter(uses, k), uses[k].now)
  }

  /** No call reads a time before the latest collection, although times may otherwise go up and down. */
  ghost predicate NeverBehindCollection(uses: seq<Use>) {
    forall k | 0 <= k < |uses| :: KeepsUp(uses, k)
  }

  // -- exactly when the answers are the history's

  /** The i-th call is the last of the first `n` that should have been accepted for this key. */
  ghost predicate Latest(uses: seq<Use>, i: nat, n: nat, key: NonceKey)
    requires n <= |uses|
  {
    i < n && uses[i].key == key && Fresh(uses, i)
    && forall q | i < q < n && uses[q].key == key :: !Fresh(uses, q)
  }

  /** A collection at the j-th call found the entry of the i-th expired. */
  predicate CollectsAt(uses: seq<Use>, i: nat, j: nat)
    requires i < |uses| && j < |uses|
  {
    CollectionDue(CacheAfter(uses, j), uses[j].now) && uses[j].now > uses[i].now + NONCE_TTL
  }

  ghost predicate Dropped(uses: seq<Use>, i: nat, n: nat)
    requires i < n <= |uses|
  {
    exists j | i < j < n :: CollectsAt(uses, i, j)
  }

  /** When collections run depends on the readings alone, not on the nonces. */
  lemma {:induction false} CollectionsByReadings(uses: seq<Use>, others: seq<Use>, n: nat)
    requires n <= |uses| && n <= |others| && forall k | 0 <= k < n :: uses[k].now == others[k].now
    ensures CacheAfter(uses, n).gc == CacheAfter(others, n).gc
  {
    if n > 0 {
      CollectionsByReadings(uses, others, n - 1);
    }
  }

  /** Not before the expiry of a latest use whose entry is gone. */
  ghost predicate InTime(uses: seq<Use>, k: nat)
    requires k < |uses|
  {
    forall i: nat | Latest(uses, i, k, uses[k].key) && Dropped(uses, i, k) :: uses[k].now >= uses[i].now + NONCE_TTL
  }

  ghost predicate HasLatest(uses: seq<Use>, n: nat, key: NonceKey)
    requires n <= |uses|
  {
    exists i: nat :: Latest(uses, i, n, key)
  }

  predicate HoldsUse(entries: map<NonceKey, int>, key: NonceKey, used: int, dropped: bool) {
    (key in entries <==> !dropped) && (key in entries ==> entries[key] == used + NONCE_TTL)
  }

  /** For one key the cache holds exactly the expiry of the latest accepted use, unless that was dropped. */
  ghost predicate Holds(uses: seq<Use>, n: nat, entries: map<NonceKey, int>, key: NonceKey)
    requires n <= |uses|
  {
    && (forall i: nat | Latest(uses, i, n, key) :: HoldsUse(entries, key, uses[i].now, Dropped(uses, i, n)))
    && (!HasLatest(uses, n, key) ==> key !in entries)
  }

  ghost predicate CacheHolds(uses: seq<Use>, n: nat)
    requires n <= |uses|
  {
    forall key :: Holds(uses, n, CacheAfter(uses, n).entries, key)
  }

  lemma LatestIsOne(uses: seq<Use>, i: nat, j: nat, n: nat, key: NonceKey)
    requires n <= |uses| && Latest(uses, i, n, key) && Latest(uses, j, n, key)
    ensures i == j
  {
  }

  lemma {:induction false} SomeLatest(uses: seq<Use>, i: nat, n: nat) returns (latest: nat)
    requires i < n <= |uses| && Fresh(uses, i)
    ensures Latest(uses, latest, n, uses[i].key) && i <= latest
  {
    if n - 1 > i {
      if uses[n - 1].key == uses[i].key && Fresh(uses, n - 1) {
        latest := n - 1;
      } else {
        latest := SomeLatest(uses, i, n - 1);
      }
    } else {
      latest := i;
    }
  }

  /** Uses that should be accepted lie at least 60 seconds apart, so only the latest one decides. */
  lemma FreshByLatest(uses: seq<Use>, k: nat)
    requires k < |uses|
    ensures forall i: nat | Latest(uses, i, k, uses[k].key) ::
              Fresh(uses, k) <==> uses[k].now - uses[i].now >= NONCE_TTL
    ensures !HasLatest(uses, k, uses[k].key) ==> Fresh(uses, k)
  {
    forall q | 0 <= q < k && uses[q].key == uses[k].key && Fresh(uses, q)
      ensures HasLatest(uses, k, uses[k].key)
      ensures forall i: nat | Latest(uses, i, k, uses[k].key) :: uses[i].now >= uses[q].now
    {
      var latest := SomeLatest(uses, q, k);
      forall i: nat | Latest(uses, i, k, uses[k].key)
        ensures uses[i].now >= uses[q].now
      {
        LatestIsOne(uses, i, latest, k, uses[k].key);
      }
    }
  }

  /** With a cache that holds what it should, the next answer is right exactly if the call is in time. */
  lemma AnswerIffInTime(uses: seq<Use>, k: nat)
    requires k < |uses| && Holds(uses, k, CacheAfter(uses, k).entries, uses[k].key)
    ensures Matches(uses, k) <==> InTime(uses, k)
  {
    var key := uses[k].key;
    FreshByLatest(uses, k);
    AnswerByEntry(uses, k);
    if HasLatest(uses, k, key) {
      var i: nat :| Latest(uses, i, k, key);
      InTimeByLatest(uses, k, i);
      assert HoldsUse(CacheAfter(uses, k).entries, key, uses[i].now, Dropped(uses, i, k));
    }
  }

  /** What the call itself collects would not have refused it. */
  lemma AnswerByEntry(uses: seq<Use>, k: nat)
    requires k < |uses|
    ensures
      var entries := CacheAfter(uses, k).entries;
      Answer(uses, k) <==> uses[k].key !in entries || uses[k].now >= entries[uses[k].key]
  {
  }

  lemma InTimeByLatest(uses: seq<Use>, k: nat, i: nat)
    requires k < |uses| && Latest(uses, i, k, uses[k].key)
    ensures InTime(uses, k) <==> (Dropped(uses, i, k) ==> uses[k].now >= uses[i].now + NONCE_TTL)
  {
    forall j: nat | Latest(uses, j, k, uses[k].key)
      ensures j == i
    {
      LatestIsOne(uses, j, i, k, uses[k].key);
    }
  }

  lemma DroppedOneMore(uses: seq<Use>, i: nat, n: nat)
    requires i < n < |uses|
    ensures Dropped(uses, i, n + 1) <==> Dropped(uses, i, n) || CollectsAt(uses, i, n)
  {
    if Dropped(uses, i, n) {
      var j :| i < j < n && CollectsAt(uses, i, j);
      assert i < j < n + 1;
    }
  }

  lemma LatestOneMore(uses: seq<Use>, i: nat, n: nat, key: NonceKey)
    requires n < |uses| && !(uses[n].key == key && Fresh(uses, n))
    ensures Latest(uses, i, n + 1, key) <==> Latest(uses, i, n, key)
  {
  }

  /** A key whose use was not accepted is affected by the collection alone. */
  lemma CollectionHolds(uses: seq<Use>, n: nat, entries: map<NonceKey, int>, key: NonceKey)
    requires n < |uses| && !(uses[n].key == key && Fresh(uses, n))
    requires Holds(uses, n, CacheAfter(uses, n).entries, key)
    requires key in entries <==> key in Collected(CacheAfter(uses, n), uses[n].now).entries
    requires key in entries ==> entries[key] == CacheAfter(uses, n).entries[key]
    ensures Holds(uses, n + 1, entries, key)
  {
    forall i: nat | Latest(uses, i, n + 1, key)
      ensures HoldsUse(entries, key, uses[i].now, Dropped(uses, i, n + 1))
    {
      LatestOneMore(uses, i, n, key);
      DroppedOneMore(uses, i, n);
      assert HoldsUse(CacheAfter(uses, n).entries, key, uses[i].now, Dropped(uses, i, n));
    }
    if HasLatest(uses, n, key) {
      var i: nat :| Latest(uses, i, n, key);
      LatestOneMore(uses, i, n, key);
    }
  }

  lemma UseHolds(uses: seq<Use>, n: nat, key: NonceKey)
    requires n < |uses| && Holds(uses, n, CacheAfter(uses, n).entries, key) && Matches(uses, n)
    ensures Holds(uses, n + 1, CacheAfter(uses, n + 1).entries, key)
  {
    if uses[n].key == key && Fresh(uses, n) {
      assert Latest(uses, n, n + 1, key) && !Dropped(uses, n, n + 1);
      forall i: nat | Latest(uses, i, n + 1, key)
        ensures HoldsUse(CacheAfter(uses, n + 1).entries, key, uses[i].now, Dropped(uses, i, n + 1))
      {
        LatestIsOne(uses, i, n, n + 1, key);
      }
    } else {
      CollectionHolds(uses, n, CacheAfter(uses, n + 1).entries, key);
    }
  }

  ghost predicate Matches(uses: seq<Use>, k: nat)
    requires k < |uses|
  {
    Answer(uses, k) <==> Fresh(uses, k)
  }

  ghost predicate AnswersMatch(uses: seq<Use>, n: nat)
    requires n <= |uses|
  {
    forall k | 0 <= k < n :: Matches(uses, k)
  }

  ghost predicate AllInTime(uses: seq<Use>, n: nat)
    requires n <= |uses|
  {
    forall k | 0 <= k < n :: InTime(uses, k)
  }

  lemma {:induction false} MatchingCacheHolds(uses: seq<Use>, n: nat)
    requires n <= |uses| && AnswersMatch(uses, n)
    ensures CacheHolds(uses, n)
  {
    if n > 0 {
      MatchingCacheHolds(uses, n - 1);
      forall key
        ensures Holds(uses, n, CacheAfter(uses, n).entries, key)
      {
        UseHolds(uses, n - 1, key);
      }
    }
  }

  lemma OneMoreCall(uses: seq<Use>, n: nat)
    requires n < |uses|
    ensures AnswersMatch(uses, n + 1) <==> AnswersMatch(uses, n) && Matches(uses, n)
    ensures AllInTime(uses, n + 1) <==> AllInTime(uses, n) && InTime(uses, n)
  {
  }

  /**
   * For calls that read any times in any order: the first `n` answers are those of the unbounded history exactly if no
   * call comes back to a nonce before its latest accepted use has expired, but after a collection has dropped it.
   */
  lemma {:induction false} NonceCacheMatchesHistory(uses: seq<Use>, n: nat)
    requires n <= |uses|
    ensures AnswersMatch(uses, n) <==> AllInTime(uses, n)
  {
    if n > 0 {
      NonceCacheMatchesHistory(uses, n - 1);
      OneMoreCall(uses, n - 1);
      if AnswersMatch(uses, n - 1) {
        MatchingCacheHolds(uses, n - 1);
        AnswerIffInTime(uses, n - 1);
      }
    }
  }

  // -- calls that are in time

  lemma {:induction false} CollectionIsAnEarlierCall(uses: seq<Use>, n: nat)
    requires n <= |uses|
    ensures n > 0 ==> CacheAfter(uses, n).gc.Some?
    ensures LastCollection(CacheAfter(uses, n)).Some? ==>
              exists i | 0 <= i < n :: LastCollection(CacheAfter(uses, n)).value == uses[i].now
  {
    if n > 0 {
      CollectionIsAnEarlierCall(uses, n - 1);
      if CollectionDue(CacheAfter(uses, n - 1), uses[n - 1].now) {
        assert LastCollection(CacheAfter(uses, n)).value == uses[n - 1].now;
      }
    }
  }

  lemma AscendingKeepsUp(uses: seq<Use>)
    requires Ascending(uses)
    ensures NeverBehindCollection(uses)
  {
    forall k | 0 <= k < |uses|
      ensures KeepsUp(uses, k)
    {
      CollectionIsAnEarlierCall(uses, k);
    }
  }

  /** Collections come in order of their times. */
  lemma {:induction false} LaterCollectionIsLater(uses: seq<Use>, j: nat, n: nat)
    requires j < n <= |uses| && CollectionDue(CacheAfter(uses, j), uses[j].now)
    ensures LastCollection(CacheAfter(uses, n)).Some? && LastCollection(CacheAfter(uses, n)).value >= uses[j].now
    decreases n
  {
    if j < n - 1 {
      LaterCollectionIsLater(uses, j, n - 1);
    }
  }

  /** Calls that never read a time before the latest collection are in time, and so are calls in order of time. */
  lemma KeepingUpIsInTime(uses: seq<Use>)
    requires Ascending(uses) || NeverBehindCollection(uses)
    ensures AnswersMatch(uses, |uses|)
  {
    if Ascending(uses) {
      AscendingKeepsUp(uses);
    }
    forall k | 0 <= k < |uses|
      ensures InTime(uses, k)
    {
      assert KeepsUp(uses, k);
      forall i: nat | Latest(uses, i, k, uses[k].key) && Dropped(uses, i, k)
        ensures uses[k].now >= uses[i].now + NONCE_TTL
      {
        var j :| i < j < k && CollectsAt(uses, i, j);
        LaterCollectionIsLater(uses, j, k);
      }
    }
    NonceCacheMatchesHistory(uses, |uses|);
  }

  /**
   * In order of time, by the answers themselves: a nonce is accepted exactly if it has not been accepted in the 60
   * seconds before.
   */
  lemma {:induction false} AcceptedOncePerMinute(uses: seq<Use>, k: nat)
    requires Ascending(uses) && k < |uses|
    ensures Answer(uses, k) <==>
            forall i: nat | i < k && uses[i].key == uses[k].key && Answer(uses, i) ::
              uses[k].now - uses[i].now >= 60 * SECOND
  {
    KeepingUpIsInTime(uses);
    forall i: nat | i <= k
      ensures Answer(uses, i) <==> Fresh(uses, i)
    {
      assert Matches(uses, i);
    }
  }

  /** No stored entry had expired at the latest collection, and that lies at most one interval back. */
  lemma {:induction false} EntriesOutliveCollection(uses: seq<Use>, n: nat)
    requires Ascending(uses) && 0 < n <= |uses|
    ensures CacheAfter(uses, n).gc.Some? && uses[n - 1].now <= CacheAfter(uses, n).gc.value
    ensures forall key | key in CacheAfter(uses, n).entries ::
              CacheAfter(uses, n).entries[key] >= LastCollection(CacheAfter(uses, n)).value
  {
    AscendingKeepsUp(uses);
    assert KeepsUp(uses, n - 1);
    if n > 1 {
      EntriesOutliveCollection(uses, n - 1);
    }
  }

  /** After any call every stored entry was accepted within the last 90 seconds. */
  lemma EntriesAreRecent(uses: seq<Use>, n: nat, key: NonceKey) returns (i: nat)
    requires Ascending(uses) && 0 < n <= |uses| && key in CacheAfter(uses, n).entries
    ensures i < n && uses[i].key == key && Answer(uses, i)
    ensures uses[n - 1].now - uses[i].now <= 90 * SECOND
  {
    KeepingUpIsInTime(uses);
    MatchingCacheHolds(uses, n);
    EntriesOutliveCollection(uses, n);
    assert Holds(uses, n, CacheAfter(uses, n).entries, key);
    i :| Latest(uses, i, n, key);
    assert Matches(uses, i);
  }

  /** Three calls of which the last is not in time: the entry it needs is gone, and the nonce is accepted again. */
  lemma LateReadingCanReplay(key: NonceKey, other: NonceKey)
    requires key != other
    ensures
      var uses := [Use(key, 100 * SECOND), Use(other, 161 * SECOND), Use(key, 130 * SECOND)];
      Answer(uses, 0) && Answer(uses, 2) && !Fresh(uses, 2) && !InTime(uses, 2)
  {
    var uses := [Use(key, 100 * SECOND), Use(other, 161 * SECOND), Use(key, 130 * SECOND)];
    assert CacheAfter(uses, 0) == EMPTY_CACHE;
    assert CacheAfter(uses, 1) == NonceCache(map[key := 160 * SECOND], Some(130 * SECOND));
    assert CacheAfter(uses, 2).gc == Some(191 * SECOND) && key !in CacheAfter(uses, 2).entries;
    assert Fresh(uses, 0) && Latest(uses, 0, 2, key);
    assert CollectsAt(uses, 0, 1);
  }

  // ---- sessions against their history ----

  datatype SessionOp =
    | RecordOp(tenant: int, poller: int, token: string, expires: Option<int>)
    | RequireOp(tenant: int, poller: int, token: string, now: int)

  function SessionsAfter(ops: seq<SessionOp>, n: nat): map<int, Session>
    requires n <= |ops|
  {
    if n == 0 then map[]
    else
      var before := SessionsAfter(ops, n - 1);
      match ops[n - 1]
      case RecordOp(tenant, poller, token, expires) => before[poller := Session(tenant, poller, token, expires)]
      case RequireOp(_, _, token, now) => if token == "" then before else LiveSessions(before, now)
  }

  /** The verdict of the k-th operation, a check. */
  function VerdictOf(ops: seq<SessionOp>, k: nat): Verdict
    requires k < |ops| && ops[k].RequireOp?
  {
    if ops[k].token == "" then MissingToken
    else CheckSession(LiveSessions(SessionsAfter(ops, k), ops[k].now), ops[k].tenant, ops[k].poller, ops[k].token)
  }

  /** The latest session recorded for a poller among the first `n` operations, expired or not. */
  function LatestRecord(ops: seq<SessionOp>, n: nat, poller: int): Option<Session>
    requires n <= |ops|
  {
    if n == 0 then None
    else if ops[n - 1].RecordOp? && ops[n - 1].poller == poller then
      Some(Session(ops[n - 1].tenant, poller, ops[n - 1].token, ops[n - 1].expires))
    else LatestRecord(ops, n - 1, poller)
  }

  ghost predicate ChecksAscend(ops: seq<SessionOp>) {
    forall i, j | 0 <= i < j < |ops| && ops[i].RequireOp? && ops[j].RequireOp? :: ops[i].now <= ops[j].now
  }

  /** The latest record of each poller is stored, unless a check after its expiry has removed it. */
  lemma {:induction false} SessionsFollowHistory(ops: seq<SessionOp>, n: nat, poller: int, now: int)
    requires n <= |ops|
    requires forall i | 0 <= i < n && ops[i].RequireOp? :: ops[i].now <= now
    ensures
      var latest := LatestRecord(ops, n, poller);
      && (poller in SessionsAfter(ops, n) ==> latest == Some(SessionsAfter(ops, n)[poller]))
      && (poller !in SessionsAfter(ops, n) && latest.Some? ==>
            latest.value.expires.Some? && now > latest.value.expires.value)
  {
    if n > 0 {
      SessionsFollowHistory(ops, n - 1, poller, now);
    }
  }

  /**
   * Checks in order of time are decided by the records alone: granted exactly when a token is given and the latest
   * session recorded for that poller has not expired and carries that tenant and that token; otherwise the first
   * failing condition names the refusal.
   */
  lemma SessionCheckMatchesHistory(ops: seq<SessionOp>, k: nat)
    requires ChecksAscend(ops) && k < |ops| && ops[k].RequireOp?
    ensures
      var op, latest := ops[k], LatestRecord(ops, k, ops[k].poller);
      VerdictOf(ops, k) ==
        if op.token == "" then MissingToken
        else if latest.None? || (latest.value.expires.Some? && op.now > latest.value.expires.value) then NoSession
        else if latest.value.tenant != op.tenant then WrongTenant
        else if latest.value.token != op.token then WrongToken
        else Granted
  {
    SessionsFollowHistory(ops, k, ops[k].poller, ops[k].now);
  }
}
