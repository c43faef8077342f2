/**
 * `InteractiveQueryService`: locating a queryable state store among the
 * registered Kafka Streams engines under a bounded retry, and answering
 * routing questions (which host holds a key, which hosts hold a store, which
 * host this process advertises).
 *
 * The registry is a snapshot: a sequence of engines in the order the
 * registry's set iterates them. For `getQueryableStore` the snapshot is
 * taken afresh on every attempt, so it is a function of the attempt number.
 */
module InteractiveQuery {
  import opened Wrappers
  import opened JavaText
  import opened Engines

  /** The configuration key holding this process's advertised `host:port`. */
  const ApplicationServer: string := "application.server"

  // ---------------------------------------------------------------------
  // getQueryableStore
  // ---------------------------------------------------------------------

  /** Why `getQueryableStore` throws. */
  datatype RetrievalError =
      /** The `IllegalStateException` one failed attempt throws, with the last `InvalidStateStoreException` as cause. */
    | IllegalState(message: string, cause: Option<InvalidStateStore>)
      /** A retry policy allowing fewer than one attempt runs none and fails without a cause. */
    | NoAttemptMade

  /** The message of a failed attempt; it ends with the store name. */
  function RetrievalMessage(storeName: string): (m: string)
    ensures |m| > |storeName| && m[|m| - |storeName|..] == storeName
  {
    "Error when retrieving state store: j " + storeName
  }

  /** The two local variables of one scan: the candidate store and the last caught exception. */
  datatype ScanState = ScanState(store: Option<StoreHandle>, throwable: Option<InvalidStateStore>)

  /** One loop iteration: an answer (a handle or null) overwrites the candidate, an exception overwrites the cause. */
  function Step(s: ScanState, outcome: StoreOutcome): ScanState {
    match outcome
    case Found(h) => s.(store := Some(h))
    case Absent => s.(store := None)
    case NotAvailable(e) => s.(throwable := Some(e))
  }

  /** The scan state after asking every engine in order, starting from two nulls. */
  function Scan(outcomes: seq<StoreOutcome>): ScanState {
    if outcomes == [] then ScanState(None, None)
    else Step(Scan(outcomes[..|outcomes| - 1]), outcomes[|outcomes| - 1])
  }

  /** The candidate an engine's `store` call leaves behind when it does not throw. */
  function Answer(outcome: StoreOutcome): Option<StoreHandle> {
    if outcome.Found? then Some(outcome.handle) else None
  }

  /** What each engine of the snapshot answers to `store(storeName, kind)`, in iteration order. */
  function Outcomes(engines: seq<Engine>, storeName: string, kind: StoreKind): seq<StoreOutcome> {
    seq(|engines|, i requires 0 <= i < |engines| => engines[i].store(storeName, kind))
  }

  /** The outcome of one attempt of the retry callback over one registry snapshot. */
  function AttemptResult(engines: seq<Engine>, storeName: string, kind: StoreKind): Result<StoreHandle, RetrievalError> {
    var s := Scan(Outcomes(engines, storeName, kind));
    if s.store.Some? then Ok(s.store.value) else Err(IllegalState(RetrievalMessage(storeName), s.throwable))
  }

  /** The candidate is what the last engine that did not throw answered; later exceptions do not clear it. */
  lemma {:induction false} ScanKeepsLastAnswer(outcomes: seq<StoreOutcome>, i: nat)
    requires i < |outcomes| && !outcomes[i].NotAvailable?
    requires forall j :: i < j < |outcomes| ==> outcomes[j].NotAvailable?
    ensures Scan(outcomes).store == Answer(outcomes[i])
  {
    var n := |outcomes|;
    if i < n - 1 {
      var prefix := outcomes[..n - 1];
      assert forall j :: i < j < |prefix| ==> prefix[j] == outcomes[j];
      ScanKeepsLastAnswer(prefix, i);
    }
  }

  /** When every engine throws, the candidate stays null. */
  lemma {:induction false} ScanWithoutAnswer(outcomes: seq<StoreOutcome>)
    requires forall j :: 0 <= j < |outcomes| ==> outcomes[j].NotAvailable?
    ensures Scan(outcomes).store == None
  {
    if outcomes != [] {
      var prefix := outcomes[..|outcomes| - 1];
      assert forall j :: 0 <= j < |prefix| ==> prefix[j] == outcomes[j];
      ScanWithoutAnswer(prefix);
    }
  }

  /** The recorded cause is the exception of the last engine that threw. */
  lemma {:induction false} ScanKeepsLastCause(outcomes: seq<StoreOutcome>, i: nat)
    requires i < |outcomes| && outcomes[i].NotAvailable?
    requires forall j :: i < j < |outcomes| ==> !outcomes[j].NotAvailable?
    ensures Scan(outcomes).throwable == Some(outcomes[i].cause)
  {
    var n := |outcomes|;
    if i < n - 1 {
      var prefix := outcomes[..n - 1];
      assert forall j :: i < j < |prefix| ==> prefix[j] == outcomes[j];
      ScanKeepsLastCause(prefix, i);
    }
  }

  /** When no engine throws, the recorded cause stays null. */
  lemma {:induction false} ScanWithoutCause(outcomes: seq<StoreOutcome>)
    requires forall j :: 0 <= j < |outcomes| ==> !outcomes[j].NotAvailable?
    ensures Scan(outcomes).throwable == None
  {
    if outcomes != [] {
      var prefix := outcomes[..|outcomes| - 1];
      assert forall j :: 0 <= j < |prefix| ==> prefix[j] == outcomes[j];
      ScanWithoutCause(prefix);
    }
  }

  /**
   * An attempt is decided by the last engine whose `store` call does not throw:
   * its handle is returned, and a null from it fails the attempt even when an
   * earlier engine had found the store.
   */
  lemma AttemptLastAnswerWins(engines: seq<Engine>, storeName: string, kind: StoreKind, i: nat)
    requires i < |engines| && !engines[i].store(storeName, kind).NotAvailable?
    requires forall j :: i < j < |engines| ==> engines[j].store(storeName, kind).NotAvailable?
    ensures engines[i].store(storeName, kind).Found? ==>
      AttemptResult(engines, storeName, kind) == Ok(engines[i].store(storeName, kind).handle)
    ensures engines[i].store(storeName, kind).Absent? ==> AttemptResult(engines, storeName, kind).Err?
  {
    ScanKeepsLastAnswer(Outcomes(engines, storeName, kind), i);
  }

  /** When every engine of the snapshot throws (or there is none), the attempt fails. */
  lemma AttemptWithoutAnswerFails(engines: seq<Engine>, storeName: string, kind: StoreKind)
    requires forall j :: 0 <= j < |engines| ==> engines[j].store(storeName, kind).NotAvailable?
    ensures AttemptResult(engines, storeName, kind).Err?
  {
    ScanWithoutAnswer(Outcomes(engines, storeName, kind));
  }

  /** Exactly one engine holding the store (all others throwing) is found in one attempt, whatever its position. */
  lemma AttemptSingleReadyEngine(engines: seq<Engine>, storeName: string, kind: StoreKind, i: nat, h: StoreHandle)
    requires i < |engines| && engines[i].store(storeName, kind) == Found(h)
    requires forall j :: 0 <= j < |engines| && j != i ==> engines[j].store(storeName, kind).NotAvailable?
    ensures AttemptResult(engines, storeName, kind) == Ok(h)
  {
    AttemptLastAnswerWins(engines, storeName, kind, i);
  }

  /**
   * A failed attempt throws `IllegalStateException` naming the store, with the
   * exception of the last engine that threw as cause, or no cause when none threw
   * (an empty registry included).
   */
  lemma AttemptFailureCause(engines: seq<Engine>, storeName: string, kind: StoreKind)
    requires AttemptResult(engines, storeName, kind).Err?
    ensures AttemptResult(engines, storeName, kind).error.IllegalState?
    ensures AttemptResult(engines, storeName, kind).error.message == RetrievalMessage(storeName)
    ensures (forall j :: 0 <= j < |engines| ==> !engines[j].store(storeName, kind).NotAvailable?) ==>
      AttemptResult(engines, storeName, kind).error.cause == None
    ensures forall i ::
      (0 <= i < |engines| && engines[i].store(storeName, kind).NotAvailable? &&
       forall j :: i < j < |engines| ==> !engines[j].store(storeName, kind).NotAvailable?) ==>
      AttemptResult(engines, storeName, kind).error.cause == Some(engines[i].store(storeName, kind).cause)
  {
    var o := Outcomes(engines, storeName, kind);
    if forall j :: 0 <= j < |engines| ==> !engines[j].store(storeName, kind).NotAvailable? {
      ScanWithoutCause(o);
    }
    forall i | 0 <= i < |engines| && engines[i].store(storeName, kind).NotAvailable? &&
      (forall j :: i < j < |engines| ==> !engines[j].store(storeName, kind).NotAvailable?)
      ensures AttemptResult(engines, storeName, kind).error.cause == Some(engines[i].store(storeName, kind).cause)
    {
      ScanKeepsLastCause(o, i);
    }
  }

  /** An attempt over an empty registry fails with no cause. */
  lemma AttemptOnEmptyRegistry(storeName: string, kind: StoreKind)
    ensures AttemptResult([], storeName, kind) == Err(IllegalState(RetrievalMessage(storeName), None))
  {
    ScanWithoutCause([]);
  }

  /**
   * The retry callback: ask every engine of the snapshot once, in order,
   * swallowing `InvalidStateStoreException`; return the candidate if it is
   * not null, otherwise throw. `seen` records, in order, what each `store` call
   * of the loop produced.
   */
  method TryRetrieveStore(engines: seq<Engine>, storeName: string, kind: StoreKind)
    returns (r: Result<StoreHandle, RetrievalError>, ghost seen: seq<StoreOutcome>)
    ensures r == AttemptResult(engines, storeName, kind)
    ensures seen == Outcomes(engines, storeName, kind)
  {
    ghost var outcomes := Outcomes(engines, storeName, kind);
    var store: Option<StoreHandle> := None;
    var throwable: Option<InvalidStateStore> := None;
    seen := [];
    var i := 0;
    while i < |engines|
      invariant 0 <= i <= |engines|
      invariant ScanState(store, throwable) == Scan(outcomes[..i])
      invariant seen == outcomes[..i]
    {
      var outcome := engines[i].store(storeName, kind);
      seen := seen + [outcome];
      match outcome {
        case Found(h) => store := Some(h);
        case Absent => store := None;
        case NotAvailable(e) => throwable := Some(e);
      }
      assert outcomes[..i + 1][..i] == outcomes[..i];
      i := i + 1;
    }
    assert outcomes[..i] == outcomes;
    if store.Some? {
      r := Ok(store.value);
    } else {
      r := Err(IllegalState(RetrievalMessage(storeName), throwable));
    }
  }

  /**
   * `getQueryableStore(storeName, kind)`: run the callback under a retry policy of
   * `maxAttempts` attempts (the fixed back-off between attempts is a no-op here).
   * `registryAt(k)` is the registry snapshot seen by attempt `k`; `attempts`
   * counts the attempts that ran.
   */
  method GetQueryableStore(registryAt: nat -> seq<Engine>, storeName: string, kind: StoreKind, maxAttempts: int)
    returns (r: Result<StoreHandle, RetrievalError>, ghost attempts: nat)
    ensures maxAttempts < 1 ==> attempts == 0 && r == Err(NoAttemptMade)
    ensures maxAttempts >= 1 ==> 1 <= attempts <= maxAttempts
    ensures attempts >= 1 ==> r == AttemptResult(registryAt(attempts - 1), storeName, kind)
    ensures forall k :: 0 <= k < attempts - 1 ==> AttemptResult(registryAt(k), storeName, kind).Err?
    ensures r.Err? && maxAttempts >= 1 ==> attempts == maxAttempts
    ensures r == Err(NoAttemptMade) <==> maxAttempts < 1
    ensures r.Ok? ==>
      exists k :: (0 <= k < maxAttempts && r == AttemptResult(registryAt(k), storeName, kind) &&
                   forall j :: 0 <= j < k ==> AttemptResult(registryAt(j), storeName, kind).Err?)
    ensures r.Err? && maxAttempts >= 1 ==>
      (r == AttemptResult(registryAt(maxAttempts - 1), storeName, kind) &&
       forall k :: 0 <= k < maxAttempts ==> AttemptResult(registryAt(k), storeName, kind).Err?)
    ensures maxAttempts >= 1 && (forall k :: 0 <= k < maxAttempts ==> registryAt(k) == []) ==>
      r == Err(IllegalState(RetrievalMessage(storeName), None))
  {
    r := Err(NoAttemptMade);
    var attempt: nat := 0;
    var succeeded := false;
    while attempt < maxAttempts && !succeeded
      invariant attempt == 0 || attempt <= maxAttempts
      invariant attempt == 0 ==> r == Err(NoAttemptMade) && !succeeded
      invariant attempt >= 1 ==> r == AttemptResult(registryAt(attempt - 1), storeName, kind)
      invariant succeeded <==> r.Ok?
      invariant forall k :: 0 <= k < attempt - 1 ==> AttemptResult(registryAt(k), storeName, kind).Err?
      decreases maxAttempts - attempt, !succeeded
    {
      ghost var seen;
      r, seen := TryRetrieveStore(registryAt(attempt), storeName, kind);
      attempt := attempt + 1;
      succeeded := r.Ok?;
    }
    attempts := attempt;
    if maxAttempts >= 1 && forall k :: 0 <= k < maxAttempts ==> registryAt(k) == [] {
      AttemptOnEmptyRegistry(storeName, kind);
    }
  }

  // ---------------------------------------------------------------------
  // getCurrentHostInfo
  // ---------------------------------------------------------------------

  /** Why `getCurrentHostInfo` throws. */
  datatype HostInfoError =
      /** No `:` in the value: `StringUtils.split` gives null and indexing it throws `NullPointerException`. */
    | MissingSeparator
      /** The text after the first `:` is not a Java `int`: `NumberFormatException`. */
    | MalformedPort(text: string)

  /** `value` is `host`, a `:`, and a port text that parses to `port`, with no `:` inside `host`. */
  predicate IsHostPortText(value: string, h: HostInfo) {
    && |value| > |h.host|
    && value[..|h.host|] == h.host
    && value[|h.host|] == ':'
    && ':' !in h.host
    && ParseInt(value[|h.host| + 1..]) == Some(h.port)
  }

  /**
   * `getCurrentHostInfo()`: null when `application.server` is not configured,
   * otherwise the host before the first `:` and the `int` after it.
   */
  function GetCurrentHostInfo(configuration: map<string, string>): (r: Result<Option<HostInfo>, HostInfoError>)
    ensures r == Ok(None) <==> ApplicationServer !in configuration
    ensures ApplicationServer in configuration && ':' !in configuration[ApplicationServer] ==> r == Err(MissingSeparator)
    ensures r.Ok? && r.value.Some? ==> ApplicationServer in configuration && IsHostPortText(configuration[ApplicationServer], r.value.value)
  {
    if ApplicationServer in configuration then
      var applicationServer := configuration[ApplicationServer];
      match SplitAtFirst(applicationServer, ':')
      case None => Err(MissingSeparator)
      case Some(splits) =>
        assert applicationServer[|splits.0| + 1..] == splits.1;
        match ParseInt(splits.1)
        case None => Err(MalformedPort(splits.1))
        case Some(port) => Ok(Some(HostInfo(splits.0, port)))
    else
      Ok(None)
  }

  /**
   * A configured `host:portText`, with no `:` in `host` and a port text that
   * `Integer.valueOf` accepts (leading zeros and a sign included), gives that host and port.
   */
  lemma CurrentHostInfoParsesHostPort(configuration: map<string, string>, host: string, portText: string, port: int)
    requires ApplicationServer in configuration
    requires configuration[ApplicationServer] == host + ":" + portText
    requires ':' !in host && ParseInt(portText) == Some(port)
    ensures GetCurrentHostInfo(configuration) == Ok(Some(HostInfo(host, port)))
  {
    SplitAtFirstUnique(configuration[ApplicationServer], ':', host, portText);
  }

  /** A configured `host:port`, with `port` printed as Java prints an `int`, is read back exactly. */
  lemma CurrentHostInfoRoundTrip(configuration: map<string, string>, host: string, port: int)
    requires ApplicationServer in configuration
    requires configuration[ApplicationServer] == host + ":" + IntToString(port)
    requires ':' !in host && IsJavaInt(port)
    ensures GetCurrentHostInfo(configuration) == Ok(Some(HostInfo(host, port)))
  {
    ParseIntToString(port);
    CurrentHostInfoParsesHostPort(configuration, host, IntToString(port), port);
  }

  /** A configured value whose text after the first `:` is not an `int` is a `NumberFormatException`, never null. */
  lemma CurrentHostInfoMalformedPort(configuration: map<string, string>, host: string, portText: string)
    requires ApplicationServer in configuration
    requires configuration[ApplicationServer] == host + ":" + portText
    requires ':' !in host && ParseInt(portText) == None
    ensures GetCurrentHostInfo(configuration) == Err(MalformedPort(portText))
  {
    SplitAtFirstUnique(configuration[ApplicationServer], ':', host, portText);
  }

  // ---------------------------------------------------------------------
  // getHostInfo
  // ---------------------------------------------------------------------

  /** `findFirst` over the engines' non-null `metadataForKey` answers. */
  function FirstMetadata(engines: seq<Engine>, store: string, key: Bytes): Option<StreamsMetadata> {
    if engines == [] then None
    else match engines[0].metadataForKey(store, key)
      case Some(m) => Some(m)
      case None => FirstMetadata(engines[1..], store, key)
  }

  /** `getHostInfo(store, key, serializer)`: the host of the first engine that knows the key's owner, or null. */
  function GetHostInfo<K>(engines: seq<Engine>, store: string, key: K, serializer: K -> Bytes): Option<HostInfo> {
    match FirstMetadata(engines, store, serializer(key))
    case None => None
    case Some(m) => Some(m.hostInfo)
  }

  lemma {:induction false} FirstMetadataIsFirstAnswer(engines: seq<Engine>, store: string, key: Bytes, i: nat)
    requires i < |engines| && engines[i].metadataForKey(store, key).Some?
    requires forall j :: 0 <= j < i ==> engines[j].metadataForKey(store, key).None?
    ensures FirstMetadata(engines, store, key) == engines[i].metadataForKey(store, key)
  {
    if i > 0 {
      assert engines[0].metadataForKey(store, key).None?;
      var rest := engines[1..];
      assert forall j :: 0 <= j < i - 1 ==> rest[j] == engines[j + 1];
      FirstMetadataIsFirstAnswer(rest, store, key, i - 1);
    }
  }

  lemma {:induction false} FirstMetadataNone(engines: seq<Engine>, store: string, key: Bytes)
    ensures FirstMetadata(engines, store, key).None? <==>
      forall j :: 0 <= j < |engines| ==> engines[j].metadataForKey(store, key).None?
  {
    if engines != [] {
      var rest := engines[1..];
      FirstMetadataNone(rest, store, key);
      assert forall j :: 1 <= j < |engines| ==> engines[j] == rest[j - 1];
    }
  }

  /** The answer comes from the first engine, in snapshot order, whose `metadataForKey` is not null. */
  lemma GetHostInfoFirstAnswer<K>(engines: seq<Engine>, store: string, key: K, serializer: K -> Bytes, i: nat)
    requires i < |engines| && engines[i].metadataForKey(store, serializer(key)).Some?
    requires forall j :: 0 <= j < i ==> engines[j].metadataForKey(store, serializer(key)).None?
    ensures GetHostInfo(engines, store, key, serializer) == Some(engines[i].metadataForKey(store, serializer(key)).value.hostInfo)
  {
    FirstMetadataIsFirstAnswer(engines, store, serializer(key), i);
  }

  /** Null exactly when no engine answers, the empty registry included. */
  lemma GetHostInfoNone<K>(engines: seq<Engine>, store: string, key: K, serializer: K -> Bytes)
    ensures GetHostInfo(engines, store, key, serializer).None? <==>
      forall j :: 0 <= j < |engines| ==> engines[j].metadataForKey(store, serializer(key)).None?
  {
    FirstMetadataNone(engines, store, serializer(key));
  }

  // ---------------------------------------------------------------------
  // getAllHostsInfo
  // ---------------------------------------------------------------------

  /** `flatMap` of every engine's `allMetadataForStore(store)`, in engine order. */
  function AllMetadata(engines: seq<Engine>, store: string): seq<Option<StreamsMetadata>> {
    if engines == [] then [] else engines[0].allMetadataForStore(store) + AllMetadata(engines[1..], store)
  }

  /** `filter(Objects::nonNull)` then `map(StreamsMetadata::hostInfo)`. */
  function NonNullHosts(records: seq<Option<StreamsMetadata>>): seq<HostInfo> {
    if records == [] then []
    else (if records[0].Some? then [records[0].value.hostInfo] else []) + NonNullHosts(records[1..])
  }

  /** `getAllHostsInfo(store)`. */
  function GetAllHostsInfo(engines: seq<Engine>, store: string): seq<HostInfo> {
    NonNullHosts(AllMetadata(engines, store))
  }

  /** Number of non-null records. */
  function CountNonNull(records: seq<Option<StreamsMetadata>>): nat {
    if records == [] then 0 else (if records[0].Some? then 1 else 0) + CountNonNull(records[1..])
  }

  /** Number of non-null records over all engines. */
  function TotalNonNull(engines: seq<Engine>, store: string): nat {
    if engines == [] then 0 else CountNonNull(engines[0].allMetadataForStore(store)) + TotalNonNull(engines[1..], store)
  }

  /** A record that is not null and names host `h`. */
  predicate ReportsHost(record: Option<StreamsMetadata>, h: HostInfo) {
    record.Some? && record.value.hostInfo == h
  }

  lemma {:induction false} NonNullHostsAppend(a: seq<Option<StreamsMetadata>>, b: seq<Option<StreamsMetadata>>)
    ensures NonNullHosts(a + b) == NonNullHosts(a) + NonNullHosts(b)
  {
    if a != [] {
      assert (a + b)[1..] == a[1..] + b;
      NonNullHostsAppend(a[1..], b);
    } else {
      assert a + b == b;
    }
  }

  lemma {:induction false} AllMetadataAppend(a: seq<Engine>, b: seq<Engine>, store: string)
    ensures AllMetadata(a + b, store) == AllMetadata(a, store) + AllMetadata(b, store)
  {
    if a != [] {
      assert (a + b)[1..] == a[1..] + b;
      AllMetadataAppend(a[1..], b, store);
    } else {
      assert a + b == b;
    }
  }

  lemma {:induction false} NonNullHostsLength(records: seq<Option<StreamsMetadata>>)
    ensures |NonNullHosts(records)| == CountNonNull(records)
  {
    if records != [] {
      NonNullHostsLength(records[1..]);
    }
  }

  lemma {:induction false} NonNullHostsMembership(records: seq<Option<StreamsMetadata>>, h: HostInfo)
    ensures h in NonNullHosts(records) <==> exists j :: 0 <= j < |records| && ReportsHost(records[j], h)
  {
    if records != [] {
      var rest := records[1..];
      NonNullHostsMembership(rest, h);
      assert forall j :: 1 <= j < |records| ==> records[j] == rest[j - 1];
      if exists j :: 0 <= j < |records| && ReportsHost(records[j], h) {
        var j :| 0 <= j < |records| && ReportsHost(records[j], h);
        if j > 0 {
          assert ReportsHost(rest[j - 1], h);
        }
      }
    }
  }

  /** The result lists the engines' hosts engine after engine: splitting the snapshot splits the list. */
  lemma GetAllHostsInfoAppend(a: seq<Engine>, b: seq<Engine>, store: string)
    ensures GetAllHostsInfo(a + b, store) == GetAllHostsInfo(a, store) + GetAllHostsInfo(b, store)
  {
    AllMetadataAppend(a, b, store);
    NonNullHostsAppend(AllMetadata(a, store), AllMetadata(b, store));
  }

  /** One host per non-null record, duplicates kept; possibly none. */
  lemma {:induction false} GetAllHostsInfoLength(engines: seq<Engine>, store: string)
    ensures |GetAllHostsInfo(engines, store)| == TotalNonNull(engines, store)
  {
    if engines != [] {
      GetAllHostsInfoLength(engines[1..], store);
      NonNullHostsAppend(engines[0].allMetadataForStore(store), AllMetadata(engines[1..], store));
      NonNullHostsLength(engines[0].allMetadataForStore(store));
    }
  }

  /** A host is listed exactly when some engine reports a non-null record for it. */
  lemma {:induction false} GetAllHostsInfoMembership(engines: seq<Engine>, store: string, h: HostInfo)
    ensures h in GetAllHostsInfo(engines, store) <==>
      exists i, j :: 0 <= i < |engines| && 0 <= j < |engines[i].allMetadataForStore(store)| &&
        ReportsHost(engines[i].allMetadataForStore(store)[j], h)
  {
    if engines != [] {
      var first := engines[0].allMetadataForStore(store);
      var rest := engines[1..];
      GetAllHostsInfoMembership(rest, store, h);
      NonNullHostsAppend(first, AllMetadata(rest, store));
      NonNullHostsMembership(first, h);
      assert forall i :: 1 <= i < |engines| ==> engines[i] == rest[i - 1];
      if h in GetAllHostsInfo(engines, store) {
        if h in NonNullHosts(first) {
          var j :| 0 <= j < |first| && ReportsHost(first[j], h);
          assert ReportsHost(engines[0].allMetadataForStore(store)[j], h);
        } else {
          var i, j :| 0 <= i < |rest| && 0 <= j < |rest[i].allMetadataForStore(store)| &&
            ReportsHost(rest[i].allMetadataForStore(store)[j], h);
          assert ReportsHost(engines[i + 1].allMetadataForStore(store)[j], h);
        }
      }
      if exists i, j :: 0 <= i < |engines| && 0 <= j < |engines[i].allMetadataForStore(store)| &&
          ReportsHost(engines[i].allMetadataForStore(store)[j], h) {
        var i, j :| 0 <= i < |engines| && 0 <= j < |engines[i].allMetadataForStore(store)| &&
          ReportsHost(engines[i].allMetadataForStore(store)[j], h);
        if i == 0 {
          assert h in NonNullHosts(first);
        } else {
          assert ReportsHost(rest[i - 1].allMetadataForStore(store)[j], h);
          assert h in GetAllHostsInfo(rest, store);
        }
      }
    }
  }
}
