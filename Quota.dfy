/**
 * The free-tier quota ledger: one entry per known Gemini model holding its
 * daily limit, the number of calls used today and the instant after which
 * the count starts again from zero.  Counts are persisted as text in a
 * key-value store under `quota_<model>_<day>`.  The browser storage, the
 * calendar day string and the clock are parameters: `today` is the day's
 * text, `now` the current instant and `midnight` the next local midnight.
 */
module Quota {
  import opened Wrappers
  import opened JsText

  // ---------------------------------------------------------------------------
  // Numbers as the ledger sees them
  // ---------------------------------------------------------------------------

  /** A JavaScript number restricted to what the ledger can hold: an integer, NaN or +Infinity. */
  datatype Number = Finite(value: int) | NaN | Infinity

  /** `n.toString()` */
  function NumberText(n: Number): string {
    match n
    case Finite(v) => IntToString(v)
    case NaN => "NaN"
    case Infinity => "Infinity"
  }

  /** `stored ? parseInt(stored) : 0`: an absent or empty entry counts as zero. */
  function StoredCount(stored: Option<string>): Number {
    match stored
    case None => Finite(0)
    case Some(s) =>
      if s == "" then Finite(0)
      else match ParseInt(s)
        case Some(v) => Finite(v)
        case None => NaN
  }

  /** `n++` */
  function Increment(n: Number): Number {
    match n
    case Finite(v) => Finite(v + 1)
    case NaN => NaN
    case Infinity => Infinity
  }

  /** `n < limit`: never true of NaN or +Infinity. */
  predicate Below(n: Number, limit: int) {
    n.Finite? && n.value < limit
  }

  /** `n > m`, for a finite `m`. */
  predicate Above(n: Number, m: int) {
    n.Infinity? || (n.Finite? && n.value > m)
  }

  /** `Math.max(0, limit - used)` */
  function RemainingOf(limit: int, used: Number): (r: Number)
    ensures r.Finite? ==> r.value >= 0
    ensures !r.Infinity?
    ensures used.Finite? ==> r == Finite(if limit > used.value then limit - used.value else 0)
    ensures used.NaN? <==> r.NaN?
  {
    match used
    case Finite(v) => Finite(if limit - v > 0 then limit - v else 0)
    case NaN => NaN
    case Infinity => Finite(0)
  }

  /** What is written is read back: a count stored as text parses to the same count. */
  lemma StoredCountOfText(n: Number)
    requires !n.Infinity?
    ensures StoredCount(Some(NumberText(n))) == n
  {
    match n
    case Finite(v) =>
      ParseIntOfIntToString(v);
    case NaN =>
      var s := "NaN";
      assert !IsWhiteSpace(s[0]);
      assert TrimStart(s) == s;
      assert DigitOf(s[0]) == 23;
      assert LeadingDigits(s, 10) == 0;
  }

  // ---------------------------------------------------------------------------
  // One model's entry
  // ---------------------------------------------------------------------------

  const FlashPreview: string := "gemini-3-flash-preview"
  const Flash: string := "gemini-2.5-flash"
  const Pro: string := "gemini-2.5-pro"

  /** The free-tier table's keys, in declaration order. */
  const KnownModels: seq<string> := [FlashPreview, Flash, Pro]

  /** The estimated free-tier daily limits. */
  const Limits: map<string, int> := map[FlashPreview := 15, Flash := 20, Pro := 0]

  datatype QuotaInfo = QuotaInfo(model: string, dailyLimit: int, used: Number, resetTime: int)

  /** The storage key of a model's count for a day. */
  function Key(model: string, day: string): string {
    "quota_" + model + "_" + day
  }

  function Lookup(items: map<string, string>, key: string): Option<string> {
    if key in items then Some(items[key]) else None
  }

  /** The reset check: past the reset instant the count restarts and the next midnight is the new reset. */
  function Refresh(q: QuotaInfo, now: int, midnight: int): QuotaInfo {
    if now > q.resetTime then q.(used := Finite(0), resetTime := midnight) else q
  }

  /** `quota.used < quota.dailyLimit` */
  predicate Usable(q: QuotaInfo) {
    Below(q.used, q.dailyLimit)
  }

  function Remaining(q: QuotaInfo): Number {
    RemainingOf(q.dailyLimit, q.used)
  }

  /** A usable entry has some quota left, and a finite count with quota left is usable. */
  lemma UsableIffRemaining(q: QuotaInfo)
    requires q.used.Finite?
    ensures Usable(q) <==> Remaining(q).value > 0
  {
  }

  /**
   * Past the reset instant every entry's count is zero and its reset moves to the next midnight;
   * a model with a positive limit is then usable again, with its whole limit left.
   */
  lemma ResetRestores(q: QuotaInfo, now: int, midnight: int)
    requires now > q.resetTime
    ensures Refresh(q, now, midnight) == q.(used := Finite(0), resetTime := midnight)
    ensures q.dailyLimit > 0 ==>
      Usable(Refresh(q, now, midnight)) && Remaining(Refresh(q, now, midnight)) == Finite(q.dailyLimit)
    ensures q.dailyLimit <= 0 ==> !Usable(Refresh(q, now, midnight))
  {
  }

  /** A limit of zero is never usable, reset or not, unless the stored count is negative. */
  lemma ZeroLimitNeverUsable(q: QuotaInfo, now: int, midnight: int)
    requires q.dailyLimit == 0 && !(q.used.Finite? && q.used.value < 0)
    ensures !Usable(Refresh(q, now, midnight))
  {
  }

  /** Recording a call never makes an exhausted model usable. */
  lemma RecordingKeepsExhausted(q: QuotaInfo)
    requires !Usable(q)
    ensures !Usable(q.(used := Increment(q.used)))
  {
  }

  /** The entry after `calls` uses are recorded on it, each one the `used++` of `recordUsage`. */
  function Recorded(q: QuotaInfo, calls: nat): QuotaInfo
    decreases calls
  {
    if calls == 0 then q
    else
      var r := Recorded(q, calls - 1);
      r.(used := Increment(r.used))
  }

  /** From a fresh count, `calls` recorded uses leave a count of `calls` and nothing else changed. */
  lemma {:induction false} RecordedCount(q: QuotaInfo, calls: nat)
    requires q.used == Finite(0)
    ensures Recorded(q, calls) == q.(used := Finite(calls))
    decreases calls
  {
    if calls > 0 {
      RecordedCount(q, calls - 1);
    }
  }

  /** From a fresh count, a model stays usable for exactly `dailyLimit` recorded calls. */
  lemma UsableUntilLimit(q: QuotaInfo, calls: nat)
    requires q.used == Finite(0)
    ensures Usable(Recorded(q, calls)) <==> calls < q.dailyLimit
  {
    RecordedCount(q, calls);
  }

  // ---------------------------------------------------------------------------
  // The initial ledger
  // ---------------------------------------------------------------------------

  /** The entry built for a known model from the store. */
  function Entry(items: map<string, string>, today: string, midnight: int, model: string): QuotaInfo
    requires model in Limits
  {
    QuotaInfo(model, Limits[model], StoredCount(Lookup(items, Key(model, today))), midnight)
  }

  /** The ledger after the first `k` models of the table are entered. */
  function Initialised(items: map<string, string>, today: string, midnight: int, k: nat): map<string, QuotaInfo>
    requires k <= |KnownModels|
  {
    if k == 0 then map[]
    else Initialised(items, today, midnight, k - 1)[KnownModels[k - 1] := Entry(items, today, midnight, KnownModels[k - 1])]
  }

  function InitialQuotas(items: map<string, string>, today: string, midnight: int): map<string, QuotaInfo> {
    Initialised(items, today, midnight, |KnownModels|)
  }

  lemma KnownHaveLimits()
    ensures forall k :: 0 <= k < |KnownModels| ==> KnownModels[k] in Limits
  {
  }

  lemma MergeUpdate<K, V>(a: map<K, V>, b: map<K, V>, key: K, value: V)
    ensures (a + b)[key := value] == a + b[key := value]
  {
  }

  /** The shape every ledger keeps: exactly the known models, each with its own name and limit. */
  predicate WellFormed(quotas: map<string, QuotaInfo>) {
    && quotas.Keys == {FlashPreview, Flash, Pro}
    && forall m :: m in quotas ==> m in Limits && quotas[m].model == m && quotas[m].dailyLimit == Limits[m]
  }

  /**
   * The initial ledger holds every known model with its limit, today's
   * stored count (zero when absent) and the one shared reset instant.
   */
  lemma InitialQuotasShape(items: map<string, string>, today: string, midnight: int)
    ensures WellFormed(InitialQuotas(items, today, midnight))
    ensures forall m :: m in Limits ==>
      && m in InitialQuotas(items, today, midnight)
      && InitialQuotas(items, today, midnight)[m].used == StoredCount(Lookup(items, Key(m, today)))
      && InitialQuotas(items, today, midnight)[m].resetTime == midnight
  {
    var e0, e1, e2 := Entry(items, today, midnight, FlashPreview), Entry(items, today, midnight, Flash), Entry(items, today, midnight, Pro);
    assert Initialised(items, today, midnight, 1) == map[FlashPreview := e0];
    assert Initialised(items, today, midnight, 2) == map[FlashPreview := e0, Flash := e1];
    assert InitialQuotas(items, today, midnight) == map[FlashPreview := e0, Flash := e1, Pro := e2];
  }

  /**
   * Persistence round trip: a ledger built from a store holding the text
   * of a count starts from that count.
   */
  lemma ReloadRecorded(items: map<string, string>, today: string, midnight: int, model: string, n: Number)
    requires model in Limits && !n.Infinity?
    ensures model in InitialQuotas(items[Key(model, today) := NumberText(n)], today, midnight)
    ensures InitialQuotas(items[Key(model, today) := NumberText(n)], today, midnight)[model].used == n
  {
    var items' := items[Key(model, today) := NumberText(n)];
    InitialQuotasShape(items', today, midnight);
    StoredCountOfText(n);
  }

  // ---------------------------------------------------------------------------
  // The recommendation
  // ---------------------------------------------------------------------------

  /** Every model's entry after the reset check at the same instant. */
  function RefreshAll(quotas: map<string, QuotaInfo>, now: int, midnight: int): map<string, QuotaInfo> {
    map m | m in quotas :: Refresh(quotas[m], now, midnight)
  }

  /**
   * The best choice among the first `k` models: the earlier one wins a tie,
   * and `gemini-2.5-flash` with zero stands when nothing usable has quota left.
   */
  function Pick(quotas: map<string, QuotaInfo>, k: nat): (best: (string, int))
    requires k <= |KnownModels| && WellFormed(quotas)
    ensures best.1 >= 0
  {
    if k == 0 then (Flash, 0)
    else
      var previous := Pick(quotas, k - 1);
      var q := quotas[KnownModels[k - 1]];
      if Usable(q) && Above(Remaining(q), previous.1) then (KnownModels[k - 1], Remaining(q).value)
      else previous
  }

  /** Some model among the first `k` is usable and has quota left. */
  predicate AnyLeft(quotas: map<string, QuotaInfo>, k: nat)
    requires k <= |KnownModels| && WellFormed(quotas)
  {
    exists j :: 0 <= j < k && Usable(quotas[KnownModels[j]]) && Remaining(quotas[KnownModels[j]]).value > 0
  }

  /**
   * What the pick means: with nothing usable left it is `gemini-2.5-flash`;
   * otherwise it is a usable model with the greatest remaining quota, ahead
   * of every earlier model strictly.
   */
  lemma {:induction false} PickIsBest(quotas: map<string, QuotaInfo>, k: nat)
    requires k <= |KnownModels| && WellFormed(quotas)
    ensures !AnyLeft(quotas, k) ==> Pick(quotas, k) == (Flash, 0)
    ensures AnyLeft(quotas, k) ==> exists i :: 0 <= i < k && Chosen(quotas, k, i)
    decreases k
  {
    if k > 0 {
      PickIsBest(quotas, k - 1);
      var m := KnownModels[k - 1];
      var q := quotas[m];
      var previous := Pick(quotas, k - 1);
      if Usable(q) && Above(Remaining(q), previous.1) {
        assert Chosen(quotas, k, k - 1) by {
          if AnyLeft(quotas, k - 1) {
            var i :| 0 <= i < k - 1 && Chosen(quotas, k - 1, i);
          }
        }
      } else if AnyLeft(quotas, k) {
        if !AnyLeft(quotas, k - 1) {
          assert false;
        }
        var i :| 0 <= i < k - 1 && Chosen(quotas, k - 1, i);
        assert Chosen(quotas, k, i);
      }
    }
  }

  /** Model `i` is the pick among the first `k`, as the loop's comparison decides. */
  predicate Chosen(quotas: map<string, QuotaInfo>, k: nat, i: nat)
    requires k <= |KnownModels| && WellFormed(quotas) && i < k
  {
    var best := quotas[KnownModels[i]];
    && Usable(best)
    && Remaining(best).value > 0
    && Pick(quotas, k) == (KnownModels[i], Remaining(best).value)
    && (forall j :: 0 <= j < i && Usable(quotas[KnownModels[j]]) ==> Remaining(quotas[KnownModels[j]]).value < Remaining(best).value)
    && (forall j :: i < j < k && Usable(quotas[KnownModels[j]]) ==> Remaining(quotas[KnownModels[j]]).value <= Remaining(best).value)
  }

  /** A model with a zero limit and a non-negative count is never recommended. */
  lemma ProNeverPicked(quotas: map<string, QuotaInfo>)
    requires WellFormed(quotas) && !(quotas[Pro].used.Finite? && quotas[Pro].used.value < 0)
    ensures Pick(quotas, |KnownModels|).0 != Pro
  {
    assert !Usable(quotas[Pro]);
    assert Pick(quotas, 3) == Pick(quotas, 2);
    assert Pick(quotas, 2).0 in {FlashPreview, Flash} by {
      assert Pick(quotas, 0).0 == Flash;
      assert Pick(quotas, 1).0 in {FlashPreview, Flash};
    }
    assert |Pro| != |FlashPreview| && |Pro| != |Flash|;
  }

  lemma RefreshAllWellFormed(quotas: map<string, QuotaInfo>, now: int, midnight: int)
    requires WellFormed(quotas)
    ensures WellFormed(RefreshAll(quotas, now, midnight))
    ensures forall m :: m in quotas ==> RefreshAll(quotas, now, midnight)[m] == Refresh(quotas[m], now, midnight)
  {
  }

  /** The first `i` models hold their refreshed entries and the others their starting ones. */
  predicate RefreshedUpTo(quotas: map<string, QuotaInfo>, start: map<string, QuotaInfo>, refreshed: map<string, QuotaInfo>, i: nat) {
    && WellFormed(quotas) && WellFormed(start) && WellFormed(refreshed)
    && (forall j :: 0 <= j < i && j < |KnownModels| ==> quotas[KnownModels[j]] == refreshed[KnownModels[j]])
    && (forall j :: i <= j < |KnownModels| ==> quotas[KnownModels[j]] == start[KnownModels[j]])
  }

  /** The reset check of model `i` moves it to its refreshed entry. */
  lemma RefreshStep(before: map<string, QuotaInfo>, after: map<string, QuotaInfo>, start: map<string, QuotaInfo>,
                    refreshed: map<string, QuotaInfo>, i: nat, now: int, midnight: int)
    requires i < |KnownModels| && RefreshedUpTo(before, start, refreshed, i)
    requires refreshed == RefreshAll(start, now, midnight)
    requires after == before[KnownModels[i] := Refresh(before[KnownModels[i]], now, midnight)]
    ensures RefreshedUpTo(after, start, refreshed, i + 1)
    ensures after[KnownModels[i]] == refreshed[KnownModels[i]]
  {
    forall j | 0 <= j < |KnownModels| && j != i ensures KnownModels[j] != KnownModels[i] {
      assert |KnownModels[j]| != |KnownModels[i]|;
    }
  }

  /** Once every model is checked, the ledger is the refreshed one. */
  lemma AllRefreshed(quotas: map<string, QuotaInfo>, start: map<string, QuotaInfo>, refreshed: map<string, QuotaInfo>)
    requires RefreshedUpTo(quotas, start, refreshed, |KnownModels|)
    ensures quotas == refreshed
  {
    forall m | m in quotas ensures m in refreshed && quotas[m] == refreshed[m] {
      assert m == KnownModels[0] || m == KnownModels[1] || m == KnownModels[2];
    }
  }

  // ---------------------------------------------------------------------------
  // The ledger and its store
  // ---------------------------------------------------------------------------

  /** The browser's key-value storage. */
  class Storage {
    var items: map<string, string>

    constructor (items: map<string, string>)
      ensures this.items == items
    {
      this.items := items;
    }

    /** `localStorage.getItem(key)` */
    method GetItem(key: string) returns (value: Option<string>)
      ensures value == Lookup(items, key)
    {
      value := if key in items then Some(items[key]) else None;
    }

    /** `localStorage.setItem(key, value)` */
    method SetItem(key: string, value: string)
      modifies this
      ensures items == old(items)[key := value]
    {
      items := items[key := value];
    }
  }

  class QuotaManager {
    var quotas: map<string, QuotaInfo>
    const store: Storage

    ghost predicate Valid()
      reads this
    {
      WellFormed(quotas)
    }

    /** `new QuotaManager()`: the ledger for today, read from the store. */
    constructor (store: Storage, today: string, midnight: int)
      ensures this.store == store
      ensures quotas == InitialQuotas(store.items, today, midnight)
      ensures Valid()
    {
      this.store := store;
      quotas := map[];
      new;
      InitializeQuotas(today, midnight);
      InitialQuotasShape(store.items, today, midnight);
    }

    /** `initializeQuotas()`: one entry per row of the free-tier table. */
    method InitializeQuotas(today: string, midnight: int)
      modifies this
      ensures quotas == old(quotas) + InitialQuotas(store.items, today, midnight)
    {
      KnownHaveLimits();
      for k := 0 to |KnownModels|
        invariant quotas == old(quotas) + Initialised(store.items, today, midnight, k)
      {
        var model := KnownModels[k];
        var limit := Limits[model];
        var stored := store.GetItem(Key(model, today));
        var used := StoredCount(stored);
        MergeUpdate(old(quotas), Initialised(store.items, today, midnight, k), model, QuotaInfo(model, limit, used, midnight));
        quotas := quotas[model := QuotaInfo(model, limit, used, midnight)];
      }
    }

    /** `canUseModel(model)`: unknown models are allowed; known ones after the reset check. */
    method CanUseModel(model: string, now: int, midnight: int) returns (ok: bool)
      requires Valid()
      modifies this
      ensures Valid()
      ensures quotas == if model in old(quotas) then old(quotas)[model := Refresh(old(quotas)[model], now, midnight)] else old(quotas)
      ensures ok <==> model !in quotas || Usable(quotas[model])
    {
      if model !in quotas {
        return true;
      }
      var quota := quotas[model];
      if now > quota.resetTime {
        quota := quota.(used := Finite(0), resetTime := midnight);
        quotas := quotas[model := quota];
      }
      ok := Below(quota.used, quota.dailyLimit);
    }

    /** `recordUsage(model)`: one more call on a known model, written through to the store. */
    method RecordUsage(model: string, today: string)
      requires Valid()
      modifies this, store
      ensures Valid()
      ensures quotas == if model in old(quotas) then old(quotas)[model := old(quotas)[model].(used := Increment(old(quotas)[model].used))] else old(quotas)
      ensures model in old(quotas) ==> quotas[model] == Recorded(old(quotas)[model], 1)
      ensures store.items == if model in old(quotas) then old(store.items)[Key(model, today) := NumberText(quotas[model].used)] else old(store.items)
    {
      if model in quotas {
        var quota := quotas[model];
        quota := quota.(used := Increment(quota.used));
        quotas := quotas[model := quota];
        store.SetItem(Key(model, today), NumberText(quota.used));
      }
    }

    /** `getRemainingQuota(model)`: never negative, and unbounded for an unknown model. */
    function RemainingQuota(model: string): (r: Number)
      reads this
      ensures model !in quotas ==> r == Infinity
      ensures model in quotas ==> r == Remaining(quotas[model])
      ensures r.Finite? ==> r.value >= 0
    {
      if model in quotas then RemainingOf(quotas[model].dailyLimit, quotas[model].used) else Infinity
    }

    /** `getRecommendedModel()`: every known model is reset-checked, then the best is picked. */
    method GetRecommendedModel(now: int, midnight: int) returns (bestModel: string)
      requires Valid()
      modifies this
      ensures Valid()
      ensures quotas == RefreshAll(old(quotas), now, midnight)
      ensures bestModel == Pick(quotas, |KnownModels|).0
    {
      ghost var refreshed := RefreshAll(quotas, now, midnight);
      RefreshAllWellFormed(quotas, now, midnight);
      bestModel := Flash;
      var maxRemaining := 0;
      for i := 0 to |KnownModels|
        invariant Valid()
        invariant RefreshedUpTo(quotas, old(quotas), refreshed, i)
        invariant (bestModel, maxRemaining) == Pick(refreshed, i)
      {
        var model := KnownModels[i];
        ghost var before := quotas;
        var ok := CanUseModel(model, now, midnight);
        RefreshStep(before, quotas, old(quotas), refreshed, i, now, midnight);
        if ok {
          var remaining := RemainingQuota(model);
          if Above(remaining, maxRemaining) {
            maxRemaining := remaining.value;
            bestModel := model;
          }
        }
      }
      AllRefreshed(quotas, old(quotas), refreshed);
    }
  }
}
