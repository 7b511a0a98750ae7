/**
 * The keep-alive strategy that `HttpClientConfig` registers with the pooled
 * HTTP client: how long an idle connection may be kept for reuse, read from
 * the `Keep-Alive` response header (section 19.7.1.1 of RFC 2068). A typical
 * HTTP/1.0 server sends `Keep-Alive: timeout=5, max=100`.
 *
 * The header has already been split into its elements, each a name and a
 * value that may be absent (`timeout=5` has value "5", a bare `timeout` has
 * none). The rule takes the first element named `timeout`, ignoring case,
 * that has a value, and reads that value as a number of seconds; with no
 * such element the connection is kept for a default of 20 seconds.
 */
module KeepAlive {
  import opened Wrappers
  import opened JavaLang

  /** `DEFALT_KEEP_ALIVE_TIME_MILLIS`: the keep-alive time when the server names none. */
  const DefaultKeepAliveMillis: int64 := 20 * 1000

  /** Milliseconds per second, the factor applied to the header's value. */
  const MillisPerSecond: int64 := 1000

  /** The header element name that carries the timeout. */
  const TimeoutName: string := "timeout"

  /** One element of a `Keep-Alive` header: a name and a possibly null value. */
  datatype HeaderElement = HeaderElement(name: string, value: Option<string>)

  /** `Long.parseLong` threw on the value of the deciding element. */
  datatype KeepAliveError = NumberFormatError(input: string)

  /** An element that decides the keep-alive time: it has a value and is named `timeout`, ignoring case. */
  predicate IsTimeout(e: HeaderElement): (r: bool)
    ensures e.value == None ==> !r
    ensures e.value != None && e.name == TimeoutName ==> r
    ensures |e.name| != |TimeoutName| ==> !r
  {
    e.value != None && EqualsIgnoreCase(e.name, TimeoutName)
  }

  /** The keep-alive time a timeout value in seconds gives, or the parse failure. */
  function TimeoutMillis(seconds: string): (r: Result<int64, KeepAliveError>)
    ensures r.Failure? <==> ParseInt64(seconds) == None
    ensures r.Failure? ==> r.error == NumberFormatError(seconds)
    ensures r.Success? ==> (r.value as int - ParseInt64(seconds).value as int * 1000) % TwoTo64 == 0
  {
    match ParseInt64(seconds)
    case None => Failure(NumberFormatError(seconds))
    case Some(n) => Success(MultiplyInt64(n, MillisPerSecond))
  }

  /**
   * The keep-alive time, in milliseconds, for a response whose `Keep-Alive`
   * header elements are `elements`, in order: the specification.
   */
  function KeepAliveDuration(elements: seq<HeaderElement>): Result<int64, KeepAliveError> {
    if elements == [] then Success(DefaultKeepAliveMillis)
    else if IsTimeout(elements[0]) then TimeoutMillis(elements[0].value.value)
    else KeepAliveDuration(elements[1..])
  }

  /**
   * `getKeepAliveDuration`: walks the header elements in order and returns
   * on the first that is a timeout; when the walk ends, the default.
   */
  method GetKeepAliveDuration(elements: seq<HeaderElement>) returns (r: Result<int64, KeepAliveError>)
    ensures r == KeepAliveDuration(elements)
  {
    var i := 0;
    while i < |elements|
      invariant 0 <= i <= |elements|
      invariant KeepAliveDuration(elements[i..]) == KeepAliveDuration(elements)
    {
      var element := elements[i];
      assert elements[i..][1..] == elements[i + 1..];
      i := i + 1;
      var name := element.name;
      var value := element.value;
      if value != None && EqualsIgnoreCase(name, TimeoutName) {
        var seconds := ParseInt64(value.value);
        if seconds == None {
          return Failure(NumberFormatError(value.value));
        }
        return Success(MultiplyInt64(seconds.value, MillisPerSecond));
      }
    }
    return Success(DefaultKeepAliveMillis);
  }

  // ---------------------------------------------------------------------
  // Properties of the rule
  // ---------------------------------------------------------------------

  /** With no element named `timeout` (ignoring case) that has a value, the result is the 20 000 ms default. */
  lemma {:induction false} NoTimeoutGivesDefault(elements: seq<HeaderElement>)
    requires forall i :: 0 <= i < |elements| ==> !IsTimeout(elements[i])
    ensures KeepAliveDuration(elements) == Success(20 * 1000)
  {
    if elements != [] {
      NoTimeoutGivesDefault(elements[1..]);
    }
  }

  /** The first timeout element decides the result, from its value alone. */
  lemma {:induction false} FirstTimeoutDecides(elements: seq<HeaderElement>, k: nat)
    requires k < |elements| && IsTimeout(elements[k])
    requires forall j :: 0 <= j < k ==> !IsTimeout(elements[j])
    ensures KeepAliveDuration(elements) == TimeoutMillis(elements[k].value.value)
  {
    if k > 0 {
      FirstTimeoutDecides(elements[1..], k - 1);
    }
  }

  /**
   * Elements that are not timeouts, such as `max=100` or a `timeout` without
   * a value, never change the result: dropping them from the front leaves
   * the rest to decide.
   */
  lemma {:induction false} NonTimeoutsIgnored(prefix: seq<HeaderElement>, rest: seq<HeaderElement>)
    requires forall i :: 0 <= i < |prefix| ==> !IsTimeout(prefix[i])
    ensures KeepAliveDuration(prefix + rest) == KeepAliveDuration(rest)
  {
    if prefix != [] {
      assert (prefix + rest)[1..] == prefix[1..] + rest;
      NonTimeoutsIgnored(prefix[1..], rest);
    } else {
      assert prefix + rest == rest;
    }
  }

  /** Once a timeout element has been seen, whatever follows it is ignored. */
  lemma {:induction false} LaterElementsIgnored(elements: seq<HeaderElement>, rest: seq<HeaderElement>)
    requires exists k :: 0 <= k < |elements| && IsTimeout(elements[k])
    ensures KeepAliveDuration(elements + rest) == KeepAliveDuration(elements)
  {
    if !IsTimeout(elements[0]) {
      assert (elements + rest)[1..] == elements[1..] + rest;
      var k :| 0 <= k < |elements| && IsTimeout(elements[k]);
      assert k > 0 && IsTimeout(elements[1..][k - 1]);
      LaterElementsIgnored(elements[1..], rest);
    }
  }

  /**
   * The name test ignores case: a name qualifies exactly when it folds to
   * `timeout`, so `timeout`, `TIMEOUT`, `Timeout` and `tImEoUt` all do.
   */
  lemma TimeoutNameIgnoresCase(e: HeaderElement)
    ensures IsTimeout(e) <==> e.value != None && FoldCase(e.name) == "timeout"
  {
    EqualsIgnoreCaseIffSameFold(e.name, TimeoutName);
    assert FoldCase(TimeoutName) == "timeout" by {
      forall i | 0 <= i < |TimeoutName| ensures FoldCase(TimeoutName)[i] == TimeoutName[i] {
        FoldCaseAt(TimeoutName, i);
      }
    }
  }

  /** Spellings of the name that differ only in case are all timeouts. */
  lemma TimeoutSpellings(seconds: string)
    ensures IsTimeout(HeaderElement("timeout", Some(seconds)))
    ensures IsTimeout(HeaderElement("TIMEOUT", Some(seconds)))
    ensures IsTimeout(HeaderElement("Timeout", Some(seconds)))
    ensures !IsTimeout(HeaderElement("timeout", None))
    ensures !IsTimeout(HeaderElement("max", Some(seconds)))
  {
  }

  /**
   * A timeout whose value is not a decimal `long` makes the whole call fail
   * with `NumberFormatException`; it does not fall back to the default, and
   * later elements are not consulted.
   */
  lemma MalformedTimeoutFails(elements: seq<HeaderElement>, k: nat)
    requires k < |elements| && IsTimeout(elements[k])
    requires forall j :: 0 <= j < k ==> !IsTimeout(elements[j])
    requires ParseInt64(elements[k].value.value) == None
    ensures KeepAliveDuration(elements) == Failure(NumberFormatError(elements[k].value.value))
  {
    FirstTimeoutDecides(elements, k);
  }

  /**
   * A timeout whose value parses to `s` seconds gives exactly `s * 1000`
   * milliseconds whenever that product is a `long`, however the value is
   * written (`+5`, `007`, `-0`). Nothing is clamped: zero gives zero and a
   * negative number of seconds a negative duration.
   */
  lemma {:induction false} SecondsToMillis(prefix: seq<HeaderElement>, name: string, value: string, seconds: int64, rest: seq<HeaderElement>)
    requires forall i :: 0 <= i < |prefix| ==> !IsTimeout(prefix[i])
    requires EqualsIgnoreCase(name, TimeoutName)
    requires ParseInt64(value) == Some(seconds)
    requires InInt64Range(seconds as int * 1000)
    ensures KeepAliveDuration(prefix + [HeaderElement(name, Some(value))] + rest)
         == Success((seconds as int * 1000) as int64)
  {
    var elements := prefix + [HeaderElement(name, Some(value))] + rest;
    FirstTimeoutDecides(elements, |prefix|);
  }

  /** In particular every `long` number of seconds, written as `Long.toString` writes it, is scaled exactly. */
  lemma FormattedSecondsToMillis(name: string, seconds: int64)
    requires EqualsIgnoreCase(name, TimeoutName)
    requires InInt64Range(seconds as int * 1000)
    ensures KeepAliveDuration([HeaderElement(name, Some(FormatInt64(seconds)))])
         == Success((seconds as int * 1000) as int64)
  {
    ParseFormatRoundTrip(seconds);
    SecondsToMillis([], name, FormatInt64(seconds), seconds, []);
    assert [] + [HeaderElement(name, Some(FormatInt64(seconds)))] + [] == [HeaderElement(name, Some(FormatInt64(seconds)))];
  }

  /**
   * Above `Long.MAX_VALUE / 1000` seconds the multiplication overflows: the
   * result is not the product, but the product wrapped into the `long` range.
   */
  lemma OverflowingTimeoutWraps(name: string, seconds: int64)
    requires EqualsIgnoreCase(name, TimeoutName)
    requires !InInt64Range(seconds as int * 1000)
    ensures KeepAliveDuration([HeaderElement(name, Some(FormatInt64(seconds)))]).Success?
    ensures var ms := KeepAliveDuration([HeaderElement(name, Some(FormatInt64(seconds)))]).value as int;
            ms != seconds as int * 1000 && (ms - seconds as int * 1000) % TwoTo64 == 0
  {
    ParseFormatRoundTrip(seconds);
  }

  /** A typical HTTP/1.0 header, `Keep-Alive: timeout=5, max=100`, gives five seconds. */
  lemma TypicalHeaderExample()
    ensures KeepAliveDuration([HeaderElement("timeout", Some("5")), HeaderElement("max", Some("100"))])
         == Success(5000)
  {
  }
}
