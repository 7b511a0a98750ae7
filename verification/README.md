# Keep-alive duration of the pooled HTTP client

`HttpClientConfig` (module `http-client`) builds a pooled Apache HTTP client
and registers a `ConnectionKeepAliveStrategy` with it. The strategy decides
how long a connection may stay in the pool after a response: it reads the
response's `Keep-Alive` header (section 19.7.1.1 of RFC 2068; a typical
HTTP/1.0 server sends `Keep-Alive: timeout=5, max=100`), takes the first element named `timeout`,
ignoring case, that carries a value, and turns that number of seconds into
milliseconds. When no element qualifies, the connection is kept for the
default of 20 000 ms (`DEFALT_KEEP_ALIVE_TIME_MILLIS`).

The project models that rule:

- `wrappers.dfy` (module `Wrappers`): `Option`, for Java's nullable
  references, and `Result`, for a value or the exception thrown instead.
- `java_lang.dfy` (module `JavaLang`): the Java platform behaviour the rule
  depends on. It covers `long` arithmetic, which wraps modulo 2^64. It covers
  `Long.parseLong`, which accepts an optional sign and decimal digits and
  throws on anything else or on a value out of range. It covers
  `String.equalsIgnoreCase`.
- `keep_alive.dfy` (module `KeepAlive`): the header element, the
  specification function `KeepAliveDuration`, the method
  `GetKeepAliveDuration`, which walks the elements in a loop with early
  return as the source does, and the lemmas stating the rule's properties.

The header's elements come into the model already split into
(name, optional value) pairs, in header order. `NumberFormatException`
from `parseLong` becomes a `Failure` result carrying the offending value.

## Model

| member | source | states |
|---|---|---|
| `KeepAlive.GetKeepAliveDuration` | http-client/src/main/java/com/http/client/study/config/HttpClientConfig.java:80-93 | The loop over the header elements, with return on the first qualifying element and the default after the loop, computes exactly the specification `KeepAliveDuration` of the element sequence. |
| `KeepAlive.NoTimeoutGivesDefault` | http-client/src/main/java/com/http/client/study/config/HttpClientConfig.java:83-92 | If no element is named `timeout` (ignoring case) with a non-null value, the result is 20 × 1000 ms. |
| `KeepAlive.FirstTimeoutDecides` | http-client/src/main/java/com/http/client/study/config/HttpClientConfig.java:83-90 | When element k is the first qualifying element, the result depends only on that element's value. |
| `KeepAlive.LaterElementsIgnored` | http-client/src/main/java/com/http/client/study/config/HttpClientConfig.java:83-90 | Once the elements contain a qualifying one, appending further elements, including further `timeout` elements, does not change the result. |
| `KeepAlive.NonTimeoutsIgnored` | http-client/src/main/java/com/http/client/study/config/HttpClientConfig.java:88 | Elements that do not qualify never affect the result. These are elements with another name, such as `max`, and `timeout` elements with a null value. Removing them from the front leaves the same result. |
| `KeepAlive.TimeoutNameIgnoresCase` | http-client/src/main/java/com/http/client/study/config/HttpClientConfig.java:88 | An element qualifies exactly when its value is non-null and its name case-folds to `timeout`. |
| `KeepAlive.TimeoutSpellings` | http-client/src/main/java/com/http/client/study/config/HttpClientConfig.java:88 | `timeout`, `TIMEOUT` and `Timeout` with a value qualify. `timeout` with a null value does not, and neither does `max`. |
| `KeepAlive.TimeoutMillis` | http-client/src/main/java/com/http/client/study/config/HttpClientConfig.java:89 | A timeout value fails exactly when `parseLong` rejects it, and the failure carries that value. Otherwise the result is the parsed seconds × 1000, modulo 2^64. |
| `KeepAlive.MalformedTimeoutFails` | http-client/src/main/java/com/http/client/study/config/HttpClientConfig.java:89 | If the first qualifying element's value is not a decimal `long`, the call fails with `NumberFormatException`. It does not fall back to the default, and later elements are not consulted. |
| `KeepAlive.SecondsToMillis` | http-client/src/main/java/com/http/client/study/config/HttpClientConfig.java:89 | A qualifying element whose value parses to s seconds, however it is written, gives exactly s × 1000 ms whenever that product fits in a `long`. This holds after any number of non-qualifying elements and before any others. It includes zero and negative s, because nothing is clamped. |
| `KeepAlive.FormattedSecondsToMillis` | http-client/src/main/java/com/http/client/study/config/HttpClientConfig.java:89 | For every `long` s, a lone timeout element carrying s as `Long.toString` writes it gives exactly s × 1000 ms when that product fits in a `long`. |
| `KeepAlive.IsTimeout` | http-client/src/main/java/com/http/client/study/config/HttpClientConfig.java:88 | The qualifying test. An element with a null value never qualifies. An element named exactly `timeout` with a value always does. A name of any other length, such as `max`, never does. |
| `KeepAlive.OverflowingTimeoutWraps` | http-client/src/main/java/com/http/client/study/config/HttpClientConfig.java:89 | When s × 1000 does not fit in a `long`, the result is not the product but the product wrapped into the `long` range. |
| `KeepAlive.TypicalHeaderExample` | http-client/src/main/java/com/http/client/study/config/HttpClientConfig.java:80-93 | The typical HTTP/1.0 header `timeout=5, max=100` gives 5000 ms. |
| `JavaLang.ParseInt64` | http-client/src/main/java/com/http/client/study/config/HttpClientConfig.java:89 | `Long.parseLong` succeeds exactly on an optional sign followed by at least one decimal digit whose signed value is in the `long` range, so `+5`, `007` and `-0` parse too. On success it gives that signed value. It fails on the empty string, a lone sign, any non-digit after the sign, and values out of range. |
| `JavaLang.ParseFormatRoundTrip` | http-client/src/main/java/com/http/client/study/config/HttpClientConfig.java:89 | Every `long` written in decimal, as `Long.toString` writes it, parses back to itself. |
| `JavaLang.MultiplyInt64` | http-client/src/main/java/com/http/client/study/config/HttpClientConfig.java:89 | `long` multiplication equals the exact product when that product is in range, and is always congruent to it modulo 2^64. |
| `JavaLang.WrapInt64` | http-client/src/main/java/com/http/client/study/config/HttpClientConfig.java:89 | The wrapped value is the `long` congruent to the exact value modulo 2^64, and it equals the exact value when that value is in range. |
| `JavaLang.EqualsIgnoreCase` | http-client/src/main/java/com/http/client/study/config/HttpClientConfig.java:88 | `equalsIgnoreCase` holds exactly when the strings have the same length and the same case key at every position. Every string equals itself ignoring case. |
| `JavaLang.EqualsIgnoreCaseIffSameFold` | http-client/src/main/java/com/http/client/study/config/HttpClientConfig.java:88 | `equalsIgnoreCase` holds exactly when the two strings have the same case-folded form. So it is reflexive, symmetric and transitive. |

## Left out

- Tokenising the `Keep-Alive` header into elements, which `BasicHeaderElementIterator` does (HttpClientConfig.java:81-82), belongs to the Apache HTTP library. The model starts from the element sequence.
- `poolingHttpClientConnectionManager()` (HttpClientConfig.java:51-74) is builder calls into Apache HttpClient and JSSE. It covers TLS trust of self-signed certificates and a pool of at most 50 connections. Its exceptions are only logged.
- `httpClient()` (HttpClientConfig.java:98-105) builds the client from the fixed timeouts (connect 30 s, request 30 s, socket 60 s), the pooled connection manager and the keep-alive strategy modelled here. All of it is library-builder wiring.
- `idleConnectionRunner` (HttpClientConfig.java:108-129) is a background task run with a fixed delay of 1 s after each run ends. It asks the library's connection manager to close expired connections and connections idle for more than 30 s. Scheduling and eviction belong to the framework and the library.
- The Todo controller, service and repository in `example-crud` pass requests through to code that is not part of this model.
- `JavaLang.ParseInt64`: only ASCII digits are accepted. Java's `Character.digit` also accepts the decimal digits of other scripts.
- `JavaLang.EqualsIgnoreCase`: the case mapping (`ToUpperCase`, `ToLowerCase`) covers the ASCII letters and the two non-ASCII characters that Java relates to the letter i, U+0130 and U+0131. Other Unicode letters map to themselves here. This does not change which names equal `timeout`.
- Java strings are sequences of UTF-16 code units; the model's strings are sequences of Unicode scalar values.
