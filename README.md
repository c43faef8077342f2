# Kafka Streams binder: interactive queries and the KTable input wrapper

A Dafny model of two parts of the Spring Cloud Stream Kafka Streams binder:

- `InteractiveQueryService` has four operations:
  - `getQueryableStore` finds a named state store among the registered `KafkaStreams` engines. It retries a bounded number of times.
  - `getCurrentHostInfo` reads the `host:port` this process advertises in `application.server`.
  - `getHostInfo` finds the host that owns a key.
  - `getAllHostsInfo` lists every host that holds a store.
- `KTableBoundElementFactory` creates `KTable` input bindings. Each one is a proxy whose interceptor, `KTableWrapperHandler`, has a delegate. `wrap` sets the delegate exactly once. After that, every `KTable` call goes to the delegate. `createOutput` always throws.

Files:

- `wrappers.dfy` defines `Option`, which stands for Java `null`, and `Result`, which stands for a thrown exception.
- `java_text.dfy` models two Java utilities: Spring's `StringUtils.split` for a one-character delimiter and Java's `Integer.valueOf`. `Integer.toString` is included as the inverse that the parse is proved against.
- `engines.dfy` describes what the service sees of one engine. The three engine calls (`store`, `metadataForKey`, `allMetadataForStore`) are uninterpreted total functions. `HostInfo`, `StreamsMetadata` and the store outcomes are value types.
- `interactive_query.dfy` models the four service operations:
  - The scan of one attempt is `TryRetrieveStore`, a loop over the snapshot. It is proved equal to the fold `Scan`.
  - The retry is `GetQueryableStore`, a loop over attempts.
  - The routing queries are functions.
- `ktable_binding.dfy` models the handler as a class with a `delegate` field. Its `Wrap` and `Invoke` methods are proved against the pure transitions `WrapStep` and `InvokeStep`. Lemmas over sequences of proxy calls show that the delegate is set at most once.

The registry is a sequence of engines in the order its set iterates them. `getQueryableStore` takes a fresh snapshot on every attempt, so the model passes a function `registryAt` from the attempt number to a snapshot. Engines can register, and stores can become ready, between attempts.

Behaviour of the code as written worth noting:

- Within one attempt the winner is the **last** engine whose `store` call does not throw. The scan never stops early, and a `null` from that engine overwrites an earlier hit.
- A failed attempt throws `IllegalStateException` with the message `"Error when retrieving state store: j " + storeName`. Its cause is the last `InvalidStateStoreException` caught, or `null` when no engine threw.
- In `getCurrentHostInfo`, a value with no `:` throws `NullPointerException` (`MissingSeparator`), because `StringUtils.split` returns `null`. A bad port text throws `NumberFormatException` (`MalformedPort`).
- `getAllHostsInfo` as written does not compile: it has no `;` after the `collect` call and no imports for `List`, `Objects` and `Collectors`. The model follows its evident pipeline: `flatMap`, drop nulls, map to `hostInfo`, collect to a list.

## Model

| member | source | states |
|---|---|---|
| `JavaText.SplitAtFirst` | spring-cloud-stream-binder-kafka-streams/src/main/java/org/springframework/cloud/stream/binder/kafka/streams/InteractiveQueryService.java:126 | gives null exactly when the value has no `:`; otherwise the value is `before + ":" + after` and `before` holds no `:` |
| `JavaText.SplitAtFirstUnique` | spring-cloud-stream-binder-kafka-streams/src/main/java/org/springframework/cloud/stream/binder/kafka/streams/InteractiveQueryService.java:126 | any cut at a `:` with no `:` before it is exactly the split returned |
| `JavaText.ParseInt` | spring-cloud-stream-binder-kafka-streams/src/main/java/org/springframework/cloud/stream/binder/kafka/streams/InteractiveQueryService.java:128 | a successful `Integer.valueOf` lies in the 32-bit `int` range and starts with a digit or a sign |
| `JavaText.ParseIntToString` | spring-cloud-stream-binder-kafka-streams/src/main/java/org/springframework/cloud/stream/binder/kafka/streams/InteractiveQueryService.java:128 | parsing the decimal text of any Java `int` gives that `int` back |
| `JavaText.ParseIntRejectsNonDigit` | spring-cloud-stream-binder-kafka-streams/src/main/java/org/springframework/cloud/stream/binder/kafka/streams/InteractiveQueryService.java:128 | a non-digit after the optional sign is a `NumberFormatException` |
| `InteractiveQuery.RetrievalMessage` | spring-cloud-stream-binder-kafka-streams/src/main/java/org/springframework/cloud/stream/binder/kafka/streams/InteractiveQueryService.java:107 | the failure message ends with the store name |
| `InteractiveQuery.ScanKeepsLastAnswer` | spring-cloud-stream-binder-kafka-streams/src/main/java/org/springframework/cloud/stream/binder/kafka/streams/InteractiveQueryService.java:95-98 | the candidate after a scan is the answer of the last engine that did not throw; later exceptions do not clear it |
| `InteractiveQuery.ScanWithoutAnswer` | spring-cloud-stream-binder-kafka-streams/src/main/java/org/springframework/cloud/stream/binder/kafka/streams/InteractiveQueryService.java:90-102 | if every engine throws, the candidate stays null |
| `InteractiveQuery.ScanKeepsLastCause` | spring-cloud-stream-binder-kafka-streams/src/main/java/org/springframework/cloud/stream/binder/kafka/streams/InteractiveQueryService.java:99-102 | the recorded cause is the exception of the last engine that threw |
| `InteractiveQuery.ScanWithoutCause` | spring-cloud-stream-binder-kafka-streams/src/main/java/org/springframework/cloud/stream/binder/kafka/streams/InteractiveQueryService.java:94-102 | if no engine throws, the cause stays null |
| `InteractiveQuery.AttemptLastAnswerWins` | spring-cloud-stream-binder-kafka-streams/src/main/java/org/springframework/cloud/stream/binder/kafka/streams/InteractiveQueryService.java:95-107 | an attempt returns the handle of the last engine that did not throw; a null from that engine fails the attempt even after an earlier hit |
| `InteractiveQuery.AttemptWithoutAnswerFails` | spring-cloud-stream-binder-kafka-streams/src/main/java/org/springframework/cloud/stream/binder/kafka/streams/InteractiveQueryService.java:95-107 | if every engine throws, or there is none, the attempt throws |
| `InteractiveQuery.AttemptSingleReadyEngine` | spring-cloud-stream-binder-kafka-streams/src/main/java/org/springframework/cloud/stream/binder/kafka/streams/InteractiveQueryService.java:92-106 | if exactly one engine has the store ready and all others throw, one attempt returns its handle, wherever that engine sits in the snapshot |
| `InteractiveQuery.AttemptFailureCause` | spring-cloud-stream-binder-kafka-streams/src/main/java/org/springframework/cloud/stream/binder/kafka/streams/InteractiveQueryService.java:104-107 | a failed attempt throws `IllegalStateException` with the store's message. The cause is the last engine exception, or null when no engine threw |
| `InteractiveQuery.AttemptOnEmptyRegistry` | spring-cloud-stream-binder-kafka-streams/src/main/java/org/springframework/cloud/stream/binder/kafka/streams/InteractiveQueryService.java:92-107 | with no registered engine, an attempt throws with a null cause |
| `InteractiveQuery.TryRetrieveStore` | spring-cloud-stream-binder-kafka-streams/src/main/java/org/springframework/cloud/stream/binder/kafka/streams/InteractiveQueryService.java:89-108 | the loop makes one `store` call per engine, in snapshot order: the recorded results are exactly the engines' answers. Its result is the attempt outcome characterised by the lemmas above |
| `InteractiveQuery.GetQueryableStore` | spring-cloud-stream-binder-kafka-streams/src/main/java/org/springframework/cloud/stream/binder/kafka/streams/InteractiveQueryService.java:77-109 | at most `maxAttempts` attempts run, and every attempt before the last failed. The result is the last attempt's outcome, so the first success ends the loop. A failure means all attempts ran. With an empty registry every time, all attempts run and the call throws the store's message with a null cause. With `maxAttempts` below 1, no attempt runs |
| `InteractiveQuery.GetCurrentHostInfo` | spring-cloud-stream-binder-kafka-streams/src/main/java/org/springframework/cloud/stream/binder/kafka/streams/InteractiveQueryService.java:120-131 | null exactly when `application.server` is absent. A value without `:` throws. A returned host is the text before the first `:` and its port is the parse of the text after it |
| `InteractiveQuery.CurrentHostInfoParsesHostPort` | spring-cloud-stream-binder-kafka-streams/src/main/java/org/springframework/cloud/stream/binder/kafka/streams/InteractiveQueryService.java:125-128 | any value `host:portText`, with `host` free of `:` and a port text `Integer.valueOf` accepts (a sign or leading zeros included), gives exactly that host and the parsed port |
| `InteractiveQuery.CurrentHostInfoRoundTrip` | spring-cloud-stream-binder-kafka-streams/src/main/java/org/springframework/cloud/stream/binder/kafka/streams/InteractiveQueryService.java:125-128 | `host:port`, with `host` free of `:` and the port printed as Java prints an `int`, reads back as exactly that host and port (the canonical-text case of `CurrentHostInfoParsesHostPort`) |
| `InteractiveQuery.CurrentHostInfoMalformedPort` | spring-cloud-stream-binder-kafka-streams/src/main/java/org/springframework/cloud/stream/binder/kafka/streams/InteractiveQueryService.java:125-128 | a port text that is not an `int` throws `NumberFormatException` and never yields null |
| `InteractiveQuery.FirstMetadataIsFirstAnswer` | spring-cloud-stream-binder-kafka-streams/src/main/java/org/springframework/cloud/stream/binder/kafka/streams/InteractiveQueryService.java:150-153 | `findFirst` yields the first non-null `metadataForKey` in snapshot order |
| `InteractiveQuery.FirstMetadataNone` | spring-cloud-stream-binder-kafka-streams/src/main/java/org/springframework/cloud/stream/binder/kafka/streams/InteractiveQueryService.java:150-153 | `findFirst` is empty exactly when every engine answers null |
| `InteractiveQuery.GetHostInfoFirstAnswer` | spring-cloud-stream-binder-kafka-streams/src/main/java/org/springframework/cloud/stream/binder/kafka/streams/InteractiveQueryService.java:149-155 | the host is that of the first engine, in snapshot order, whose metadata for the serialized key is not null |
| `InteractiveQuery.GetHostInfoNone` | spring-cloud-stream-binder-kafka-streams/src/main/java/org/springframework/cloud/stream/binder/kafka/streams/InteractiveQueryService.java:149-155 | null exactly when no engine answers, an empty registry included |
| `InteractiveQuery.NonNullHostsAppend` | spring-cloud-stream-binder-kafka-streams/src/main/java/org/springframework/cloud/stream/binder/kafka/streams/InteractiveQueryService.java:173-174 | filtering and mapping a concatenation is the concatenation of the filtered and mapped parts |
| `InteractiveQuery.AllMetadataAppend` | spring-cloud-stream-binder-kafka-streams/src/main/java/org/springframework/cloud/stream/binder/kafka/streams/InteractiveQueryService.java:170-172 | the `flatMap` over two snapshot parts is the concatenation of their records |
| `InteractiveQuery.NonNullHostsLength` | spring-cloud-stream-binder-kafka-streams/src/main/java/org/springframework/cloud/stream/binder/kafka/streams/InteractiveQueryService.java:173-174 | one host per non-null record |
| `InteractiveQuery.NonNullHostsMembership` | spring-cloud-stream-binder-kafka-streams/src/main/java/org/springframework/cloud/stream/binder/kafka/streams/InteractiveQueryService.java:173-174 | a host is listed exactly when some non-null record names it |
| `InteractiveQuery.GetAllHostsInfoAppend` | spring-cloud-stream-binder-kafka-streams/src/main/java/org/springframework/cloud/stream/binder/kafka/streams/InteractiveQueryService.java:169-176 | the result lists the hosts engine after engine, in snapshot order |
| `InteractiveQuery.GetAllHostsInfoLength` | spring-cloud-stream-binder-kafka-streams/src/main/java/org/springframework/cloud/stream/binder/kafka/streams/InteractiveQueryService.java:169-176 | the length equals the number of non-null records over all engines. Duplicates are kept, and the list may be empty |
| `InteractiveQuery.GetAllHostsInfoMembership` | spring-cloud-stream-binder-kafka-streams/src/main/java/org/springframework/cloud/stream/binder/kafka/streams/InteractiveQueryService.java:169-176 | a host is listed exactly when some engine reports a non-null record for it |
| `KTableBinding.CreateOutput` | spring-cloud-stream-binder-kstream/src/main/java/org/springframework/cloud/stream/binder/kstream/KTableBoundElementFactory.java:48-52 | always throws `UnsupportedOperationException`, whatever the name |
| `KTableBinding.WrapStep` | spring-cloud-stream-binder-kstream/src/main/java/org/springframework/cloud/stream/binder/kstream/KTableBoundElementFactory.java:62-66 | `wrap` succeeds exactly when the argument is non-null and no delegate is set. On success the delegate becomes the argument; on failure it is unchanged |
| `KTableBinding.InvokeStep` | spring-cloud-stream-binder-kstream/src/main/java/org/springframework/cloud/stream/binder/kstream/KTableBoundElementFactory.java:69-81 | only a successful `wrap` through the proxy changes the delegate, and only from unset. A `KTable` call is forwarded, with the same method and arguments, exactly when a delegate is set. Any other declaring type is rejected with `IllegalStateException` |
| `KTableBinding.DelegateSetAtMostOnce` | spring-cloud-stream-binder-kstream/src/main/java/org/springframework/cloud/stream/binder/kstream/KTableBoundElementFactory.java:62-66 | once set, the delegate stays the same through any later sequence of proxy calls |
| `KTableBinding.DelegateIsFirstWrappedTable` | spring-cloud-stream-binder-kstream/src/main/java/org/springframework/cloud/stream/binder/kstream/KTableBoundElementFactory.java:60-76 | starting unset, after any sequence of proxy calls the delegate is the table of the first `wrap` call with a non-null `KTable`, or unset if there was none |
| `KTableBinding.KTableWrapperHandler.constructor` | spring-cloud-stream-binder-kstream/src/main/java/org/springframework/cloud/stream/binder/kstream/KTableBoundElementFactory.java:58-60 | a new handler has no delegate |
| `KTableBinding.KTableWrapperHandler.Wrap` | spring-cloud-stream-binder-kstream/src/main/java/org/springframework/cloud/stream/binder/kstream/KTableBoundElementFactory.java:62-66 | `wrap(null)` throws and leaves the state unchanged. A second `wrap` throws, names the current delegate and keeps it. Otherwise the delegate becomes the argument and nothing else changes |
| `KTableBinding.KTableWrapperHandler.Invoke` | spring-cloud-stream-binder-kstream/src/main/java/org/springframework/cloud/stream/binder/kstream/KTableBoundElementFactory.java:69-81 | a `KTable` call with no delegate throws. With a delegate it is forwarded with the same method and arguments, and the state is unchanged. A `KTableWrapper` call runs `wrap` on the handler, and a failure of `wrap` is wrapped in an `InvocationTargetException`. Any other declaring type throws `IllegalStateException` |

## Left out

- The fixed back-off sleep between attempts is not modelled. It is a no-op; only the number of attempts is modelled.
- `RetryTemplate` and `SimpleRetryPolicy` are library code and are not part of this model. Their observable behaviour is taken as given: at most `maxAttempts` attempts, every exception retried, and the last one rethrown. For `maxAttempts` below 1 the policy allows no attempt and fails without a cause (`NoAttemptMade`).
- Thread-safety of `KafkaStreamsRegistry` is not modelled. The registry class is not part of this model; each query takes a snapshot as input.
- `KafkaStreams.store`, `metadataForKey` and `allMetadataForStore` are foreign calls, taken as uninterpreted functions of an engine. Kafka's partition assignment and store-type checks are not modelled. The only exception modelled is `InvalidStateStoreException` from `store`. `metadataForKey` and `allMetadataForStore` are taken never to throw; in the source nothing in `getHostInfo` or `getAllHostsInfo` catches their exceptions, so those would reach the caller.
- The key `Serializer` is a total function from the key to bytes. A failing serializer is not modelled.
- `JavaText.ParseInt` accepts ASCII digits only. Java's `Integer.valueOf` also accepts other Unicode decimal digits.
- `InteractiveQuery.GetCurrentHostInfo` takes a configuration without `null` values. A key mapped to `null` would throw `NullPointerException` in the source.
- `KTableBoundElementFactory.createInput` and the AOP proxy it builds with `ProxyFactory` are not modelled. The proxy's own handling of `Object` methods and its wrapping of checked exceptions are left out with it.
- What a forwarded `KTable` method returns or throws is foreign code. `KTableBinding.KTableWrapperHandler.Invoke` returns the dispatch decision: the target, the method and the arguments.
