/**
 * The discount write path, `applyDiscount` (service/ProductService.kt).
 *
 * The store is a set of product ids and the ledger of applied discounts,
 * a map keyed by (product id, discount id): the composite primary key of the
 * `product_discounts` table, so a key holds at most one row. One call is one
 * atomic step: validate the percent, look the product up, then attempt the
 * INSERT; a failed INSERT whose lower-cased message mentions "unique",
 * "duplicate" or "primary key" is an idempotent success, any other is
 * re-thrown. Concurrent calls are modelled as the sequence of their steps in
 * the order the storage engine serialises them.
 */
module DiscountLedger {
  import opened Wrappers
  import opened Text

  type Key = (string, string)
  type Ledger = map<Key, real>

  /** The HTTP status the service hands back with its answer. */
  datatype Status = OK | NotFound

  datatype ApplyResult = ApplyResult(applied: bool, status: Status)

  /** A storage failure: the driver's `SQLException`, whose message may be null. */
  datatype SqlError = SqlError(message: Option<string>)

  /** How a call ends: a returned `ApplyResult`, a rejected argument, or a re-thrown storage error. */
  datatype Outcome =
    | Returned(result: ApplyResult)
    | InvalidArgument(message: string)
    | Raised(error: SqlError)

  /** The two databases the service can be configured with. */
  datatype Driver = H2 | Postgres

  datatype Store = Store(driver: Driver, products: set<string>, ledger: Ledger)

  datatype Request = Request(productId: string, discountId: string, percent: real)

  const Applied: Outcome := Returned(ApplyResult(true, OK))
  const AlreadyApplied: Outcome := Returned(ApplyResult(false, OK))
  const ProductMissing: Outcome := Returned(ApplyResult(false, NotFound))
  const PercentMessage: string := "percent must be > 0 and < 100"

  function KeyOf(req: Request): Key
  {
    (req.productId, req.discountId)
  }

  predicate ValidPercent(percent: real)
  {
    0.0 < percent < 100.0
  }

  // ------------------------------------------ duplicate-key classification

  /**
   * The opening words of each driver's message for a primary-key violation.
   * Each is written as a concatenation that sets the recognised word apart,
   * so that the proof below can find the word at its position.
   */
  function DuplicateKeyMessage(driver: Driver): string
  {
    match driver
    case H2 => "Unique index or " + "primary key" + " violation"
    case Postgres => "ERROR: " + "duplicate" + " key value violates unique constraint"
  }

  /** The catch block's test: a null message reads as "", the rest is searched lower-cased. */
  predicate IsDuplicate(e: SqlError): (dup: bool)
    ensures dup ==> e.message.Some?
  {
    var m := Lower(e.message.GetOr(""));
    Contains(m, "unique") || Contains(m, "duplicate") || Contains(m, "primary key")
  }

  ghost predicate Mentions(m: string, word: string)
  {
    exists i :: OccursAt(m, word, i)
  }

  /** An error counts as a duplicate iff one of the three words occurs in its lower-cased message. */
  lemma IsDuplicateIffMentions(e: SqlError)
    ensures IsDuplicate(e) <==>
      && e.message.Some?
      && (Mentions(Lower(e.message.value), "unique") || Mentions(Lower(e.message.value), "duplicate")
          || Mentions(Lower(e.message.value), "primary key"))
  {
    var m := Lower(e.message.GetOr(""));
    ContainsIffOccurs(m, "unique");
    ContainsIffOccurs(m, "duplicate");
    ContainsIffOccurs(m, "primary key");
  }

  /** The classification ignores the case of the message. */
  lemma IsDuplicateIgnoresCase(a: string, b: string)
    requires EqualsIgnoreCase(a, b)
    ensures IsDuplicate(SqlError(Some(a))) == IsDuplicate(SqlError(Some(b)))
  {
    LowerEqualIffEqualsIgnoreCase(a, b);
  }

  /** A lower-case word found in a message is found in its lower-cased form at the same place. */
  lemma FoundInLower(raw: string, word: string, i: nat)
    requires i + |word| <= |raw| && Lower(raw[i..i + |word|]) == word
    ensures Contains(Lower(raw), word)
  {
    var m := Lower(raw);
    forall j | 0 <= j < |word|
      ensures m[i..i + |word|][j] == word[j]
    {
      assert raw[i..i + |word|][j] == raw[i + j];
    }
    assert OccursAt(m, word, i);
    ContainsIffOccurs(m, word);
  }

  /** Each driver's duplicate-key message is recognised; a null message is not. */
  lemma DuplicateKeyMessagesRecognised(driver: Driver)
    ensures IsDuplicate(SqlError(Some(DuplicateKeyMessage(driver))))
    ensures !IsDuplicate(SqlError(None))
  {
    match driver
    case H2 => H2MentionsPrimaryKey();
    case Postgres => PostgresMentionsDuplicate();
  }

  lemma H2MentionsPrimaryKey()
    ensures Contains(Lower(DuplicateKeyMessage(H2)), "primary key")
  {
    var raw := DuplicateKeyMessage(H2);
    assert raw[16..27] == "primary key";
    LowerOfLowerCase("primary key");
    FoundInLower(raw, "primary key", 16);
  }

  lemma PostgresMentionsDuplicate()
    ensures Contains(Lower(DuplicateKeyMessage(Postgres)), "duplicate")
  {
    var raw := DuplicateKeyMessage(Postgres);
    assert raw[7..16] == "duplicate";
    LowerOfLowerCase("duplicate");
    FoundInLower(raw, "duplicate", 7);
  }

  // ------------------------------------------------------- one call

  datatype InsertResult = Inserted(ledger: Ledger) | InsertFailed(error: SqlError)

  /**
   * The INSERT statement. It either commits its one row or fails without a
   * trace; `fault` is a failure the environment imposes (a lost connection,
   * a value too long for its column, ...) before anything is committed.
   */
  function Insert(store: Store, key: Key, percent: real, fault: Option<SqlError>): (r: InsertResult)
    ensures r.Inserted? <==> fault.None? && key !in store.ledger
    ensures r.Inserted? ==> r.ledger == store.ledger[key := percent]
    ensures fault.None? && key in store.ledger ==> r.InsertFailed? && IsDuplicate(r.error)
  {
    if fault.Some? then InsertFailed(fault.value)
    else if key in store.ledger then
      DuplicateKeyMessagesRecognised(store.driver);
      InsertFailed(SqlError(Some(DuplicateKeyMessage(store.driver))))
    else Inserted(store.ledger[key := percent])
  }

  datatype Step = Step(outcome: Outcome, store: Store)

  /**
   * The storage failures one call meets, if any: `lookup` while opening the
   * connection or running the existence SELECT, which happens outside the
   * `try` and so always escapes; `insert` on the INSERT, which is classified.
   */
  datatype Faults = Faults(lookup: Option<SqlError>, insert: Option<SqlError>)

  const NoFaults: Faults := Faults(None, None)

  /** One call of `applyDiscount`. */
  function ApplyDiscount(store: Store, req: Request, faults: Faults): (s: Step)
    // only the ledger can change, and only by the new key of an Applied call
    ensures s.store.products == store.products && s.store.driver == store.driver
    ensures s.outcome == Applied ==> KeyOf(req) !in store.ledger && s.store.ledger == store.ledger[KeyOf(req) := req.percent]
    ensures s.outcome != Applied ==> s.store == store
    // validation comes first, then the existence check
    ensures s.outcome == InvalidArgument(PercentMessage) <==> !ValidPercent(req.percent)
    ensures ValidPercent(req.percent) && faults.lookup.Some? ==> s == Step(Raised(faults.lookup.value), store)
    ensures s.outcome == ProductMissing <==>
      ValidPercent(req.percent) && faults.lookup.None? && req.productId !in store.products
    // a clean INSERT applies a fresh key and is a no-op on a known one
    ensures ValidPercent(req.percent) && req.productId in store.products && faults == NoFaults ==>
      (s.outcome == Applied <==> KeyOf(req) !in store.ledger)
      && (s.outcome == AlreadyApplied <==> KeyOf(req) in store.ledger)
    // a failed INSERT writes nothing: a duplicate-class error is AlreadyApplied, any other escapes
    ensures ValidPercent(req.percent) && faults.lookup.None? && req.productId in store.products && faults.insert.Some? ==>
      s == (if IsDuplicate(faults.insert.value) then Step(AlreadyApplied, store) else Step(Raised(faults.insert.value), store))
    ensures s.outcome == Applied ==> faults == NoFaults
  {
    if !(req.percent > 0.0 && req.percent < 100.0) then Step(InvalidArgument(PercentMessage), store)
    else if faults.lookup.Some? then Step(Raised(faults.lookup.value), store)
    else if req.productId !in store.products then Step(ProductMissing, store)
    else
      match Insert(store, KeyOf(req), req.percent, faults.insert)
      case Inserted(ledger) => Step(Applied, store.(ledger := ledger))
      case InsertFailed(e) => if IsDuplicate(e) then Step(AlreadyApplied, store) else Step(Raised(e), store)
  }

  /** A bad percent is rejected before the store is consulted: nothing about the store or its failures matters. */
  lemma RejectionIgnoresStore(s1: Store, s2: Store, req: Request, f1: Faults, f2: Faults)
    requires !ValidPercent(req.percent)
    ensures ApplyDiscount(s1, req, f1).outcome == ApplyDiscount(s2, req, f2).outcome
    ensures ApplyDiscount(s1, req, f1).store == s1
  {
  }

  /** For a missing product no INSERT is attempted: the ledger and the INSERT's failure play no part. */
  lemma MissingProductAttemptsNoInsert(s1: Store, s2: Store, req: Request, f1: Faults, f2: Faults)
    requires ValidPercent(req.percent)
    requires f1.lookup.None? && f2.lookup.None?
    requires s1.products == s2.products && req.productId !in s1.products
    ensures ApplyDiscount(s1, req, f1).outcome == ApplyDiscount(s2, req, f2).outcome == ProductMissing
    ensures ApplyDiscount(s1, req, f1).store == s1
  {
  }

  /** A failure of the existence check escapes as it is, even when its message reads like a duplicate key. */
  lemma LookupFailureEscapes(store: Store, req: Request, e: SqlError, insert: Option<SqlError>)
    requires ValidPercent(req.percent)
    ensures ApplyDiscount(store, req, Faults(Some(e), insert)) == Step(Raised(e), store)
  {
  }

  /** A repeated call keeps the percent stored by the first one, whatever percent it carries. */
  lemma RepeatKeepsFirstPercent(store: Store, req: Request)
    requires ValidPercent(req.percent) && req.productId in store.products
    requires KeyOf(req) !in store.ledger
    ensures var first := ApplyDiscount(store, req, NoFaults);
      forall p :: ValidPercent(p) ==>
        var again := ApplyDiscount(first.store, req.(percent := p), NoFaults);
        again.outcome == AlreadyApplied && again.store.ledger[KeyOf(req)] == req.percent
  {
  }

  /**
   * The text test also swallows errors that are not key conflicts: on a
   * valid call for an existing product, any INSERT failure whose message
   * mentions "unique" is reported as already applied although no row was
   * written.
   */
  lemma FaultMentioningUniqueReadsAsAlreadyApplied(store: Store, req: Request, message: string)
    requires ValidPercent(req.percent) && req.productId in store.products
    requires Mentions(Lower(message), "unique")
    ensures ApplyDiscount(store, req, Faults(None, Some(SqlError(Some(message))))) == Step(AlreadyApplied, store)
  {
    ContainsIffOccurs(Lower(message), "unique");
  }

  // ---------------------------------------------------- sequences of calls

  /** One call: its request and the storage failures it meets. */
  datatype Call = Call(req: Request, faults: Faults)

  datatype Trace = Trace(outcomes: seq<Outcome>, final: Store)

  /** The calls applied one after another, in the order the storage engine serialised them. */
  function Run(store: Store, calls: seq<Call>): (t: Trace)
    ensures |t.outcomes| == |calls|
    ensures t.final.products == store.products && t.final.driver == store.driver
    ensures forall k :: k in store.ledger ==> k in t.final.ledger && t.final.ledger[k] == store.ledger[k]
    decreases |calls|
  {
    if |calls| == 0 then Trace([], store)
    else
      var s := ApplyDiscount(store, calls[0].req, calls[0].faults);
      var rest := Run(s.store, calls[1..]);
      Trace([s.outcome] + rest.outcomes, rest.final)
  }

  /** How many of the calls on key `k` observed Applied. */
  function CountApplied(calls: seq<Call>, outcomes: seq<Outcome>, k: Key): nat
    requires |calls| == |outcomes|
    decreases |calls|
  {
    if |calls| == 0 then 0
    else
      (if KeyOf(calls[0].req) == k && outcomes[0] == Applied then 1 else 0)
        + CountApplied(calls[1..], outcomes[1..], k)
  }

  /**
   * At most once, under any interleaving and any storage failures: a key is
   * reported Applied exactly once if the run added it to the ledger, and
   * never otherwise.
   */
  lemma {:induction false} AppliedOncePerNewKey(store: Store, calls: seq<Call>, k: Key)
    ensures var t := Run(store, calls);
      CountApplied(calls, t.outcomes, k) == if k in t.final.ledger && k !in store.ledger then 1 else 0
    decreases |calls|
  {
    if |calls| > 0 {
      var s := ApplyDiscount(store, calls[0].req, calls[0].faults);
      var rest := Run(s.store, calls[1..]);
      var t := Run(store, calls);
      assert t.outcomes[1..] == rest.outcomes;
      AppliedOncePerNewKey(s.store, calls[1..], k);
    }
  }

  /** Run's outcomes after the first are those of the rest of the calls, from the first call's store. */
  lemma RunUnfold(store: Store, calls: seq<Call>, i: int)
    requires 0 < i < |calls|
    ensures var s := ApplyDiscount(store, calls[0].req, calls[0].faults);
      Run(store, calls).outcomes[i] == Run(s.store, calls[1..]).outcomes[i - 1]
  {
  }

  /** Every call on `k` is well formed and its INSERT meets no storage failure. */
  ghost predicate CleanCallsOn(calls: seq<Call>, k: Key)
  {
    forall i :: 0 <= i < |calls| && KeyOf(calls[i].req) == k ==>
      calls[i].faults == NoFaults && ValidPercent(calls[i].req.percent)
  }

  /** With the product present and clean calls on `k`, each of them observes Applied or AlreadyApplied. */
  lemma {:induction false} CleanCallsSucceed(store: Store, calls: seq<Call>, k: Key)
    requires k.0 in store.products
    requires CleanCallsOn(calls, k)
    ensures forall i :: 0 <= i < |calls| && KeyOf(calls[i].req) == k ==>
      Run(store, calls).outcomes[i] == Applied || Run(store, calls).outcomes[i] == AlreadyApplied
    ensures (exists i :: 0 <= i < |calls| && KeyOf(calls[i].req) == k) ==> k in Run(store, calls).final.ledger
    decreases |calls|
  {
    if |calls| > 0 {
      var s := ApplyDiscount(store, calls[0].req, calls[0].faults);
      assert CleanCallsOn(calls[1..], k) by {
        forall i | 0 <= i < |calls[1..]| && KeyOf(calls[1..][i].req) == k
          ensures calls[1..][i].faults == NoFaults && ValidPercent(calls[1..][i].req.percent)
        {
          assert calls[1..][i] == calls[i + 1];
        }
      }
      CleanCallsSucceed(s.store, calls[1..], k);
      forall i | 0 < i < |calls| && KeyOf(calls[i].req) == k
        ensures Run(store, calls).outcomes[i] == Applied || Run(store, calls).outcomes[i] == AlreadyApplied
      {
        RunUnfold(store, calls, i);
        assert calls[1..][i - 1] == calls[i];
      }
      if exists i :: 0 <= i < |calls| && KeyOf(calls[i].req) == k {
        var i :| 0 <= i < |calls| && KeyOf(calls[i].req) == k;
        if i > 0 {
          assert calls[1..][i - 1] == calls[i];
        }
      }
    }
  }

  /**
   * Contention on one key: for a fresh key `k` of an existing product and at
   * least one call on it, however the clean calls on `k` are interleaved with
   * other calls, exactly one of them observes Applied, the others observe
   * AlreadyApplied, and the key ends up in the ledger.
   */
  lemma ContendedKeyAppliedOnce(store: Store, calls: seq<Call>, k: Key)
    requires k.0 in store.products && k !in store.ledger
    requires CleanCallsOn(calls, k)
    requires exists i :: 0 <= i < |calls| && KeyOf(calls[i].req) == k
    ensures var t := Run(store, calls);
      && CountApplied(calls, t.outcomes, k) == 1
      && k in t.final.ledger
      && forall i :: 0 <= i < |calls| && KeyOf(calls[i].req) == k ==>
           t.outcomes[i] == Applied || t.outcomes[i] == AlreadyApplied
  {
    CleanCallsSucceed(store, calls, k);
    AppliedOncePerNewKey(store, calls, k);
  }

  /** `n` identical calls, one after another. */
  function Repeat(req: Request, n: nat): (calls: seq<Call>)
    ensures |calls| == n
    ensures forall i :: 0 <= i < n ==> calls[i] == Call(req, NoFaults)
  {
    seq(n, _ => Call(req, NoFaults))
  }

  /**
   * N >= 1 identical valid fault-free calls on an existing product whose key
   * is not yet stored: the first to reach
   * the store applies the discount, every other one observes AlreadyApplied,
   * and the ledger gains exactly that one row with the requested percent.
   */
  lemma {:induction false} IdenticalCallsApplyOnce(store: Store, req: Request, n: nat)
    requires n >= 1
    requires ValidPercent(req.percent) && req.productId in store.products
    requires KeyOf(req) !in store.ledger
    ensures var t := Run(store, Repeat(req, n));
      && t.outcomes[0] == Applied
      && (forall i :: 1 <= i < n ==> t.outcomes[i] == AlreadyApplied)
      && CountApplied(Repeat(req, n), t.outcomes, KeyOf(req)) == 1
      && t.final.ledger == store.ledger[KeyOf(req) := req.percent]
  {
    var calls := Repeat(req, n);
    var s := ApplyDiscount(store, req, NoFaults);
    assert calls[1..] == Repeat(req, n - 1);
    RepeatsAreNoOps(s.store, req, n - 1);
    forall i | 1 <= i < n
      ensures Run(store, calls).outcomes[i] == AlreadyApplied
    {
      RunUnfold(store, calls, i);
    }
    AppliedOncePerNewKey(store, calls, KeyOf(req));
  }

  /** Once a key is in the ledger, repeating its call changes nothing and always observes AlreadyApplied. */
  lemma {:induction false} RepeatsAreNoOps(store: Store, req: Request, n: nat)
    requires ValidPercent(req.percent) && req.productId in store.products
    requires KeyOf(req) in store.ledger
    ensures var t := Run(store, Repeat(req, n));
      && (forall i :: 0 <= i < n ==> t.outcomes[i] == AlreadyApplied)
      && t.final == store
    decreases n
  {
    if n > 0 {
      var calls := Repeat(req, n);
      assert calls[1..] == Repeat(req, n - 1);
      RepeatsAreNoOps(store, req, n - 1);
      forall i | 1 <= i < n
        ensures Run(store, calls).outcomes[i] == AlreadyApplied
      {
        RunUnfold(store, calls, i);
      }
    }
  }
}
