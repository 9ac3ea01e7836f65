/**
 * The payload-to-URL builder of the print-URL page: parsing a pasted block of
 * `key: value` lines into an ordered map, serialising that map as a query
 * string, mapping the two radio selections to an origin and a path segment,
 * assembling the print URL, and the substring replacement the page uses when
 * a selection changes.
 */
module PrintUrl {
  import opened Wrappers
  import opened JsString

  // ---------------------------------------------------------------------------
  // Selections
  // ---------------------------------------------------------------------------

  const RemoteOrigin: string := "https://localhost:9002"
  const LocalOrigin: string := "http://localhost:4200"

  /** The placeholder path of the initial URL. */
  const DefaultPath: string := "print/dvr/:zoneId/:containerId?"

  /** The URL shown on start, after `clear`, and whenever the payload is emptied. */
  const InitialUrl: string := RemoteOrigin + "/s/" + DefaultPath

  /** `getEnv`: the origin for an environment radio value. */
  function Origin(env: string): string
  {
    if env == "remote" then RemoteOrigin else LocalOrigin
  }

  /** `getMode`: the path segment for a mode radio value. */
  function ModeSegment(mode: string): string
  {
    if mode == "standalone" then "/s/" else "/i/"
  }

  /** The remote origin is chosen exactly for "remote"; every other value selects the local one. */
  lemma OriginChoice(env: string)
    ensures Origin(env) == RemoteOrigin <==> env == "remote"
    ensures Origin(env) == LocalOrigin <==> env != "remote"
  {
    assert RemoteOrigin[4] != LocalOrigin[4];
  }

  /** The standalone segment is chosen exactly for "standalone"; every other value selects the integrated one. */
  lemma ModeSegmentChoice(mode: string)
    ensures ModeSegment(mode) == "/s/" <==> mode == "standalone"
    ensures ModeSegment(mode) == "/i/" <==> mode != "standalone"
  {
    assert "/s/"[1] != "/i/"[1];
  }

  // ---------------------------------------------------------------------------
  // Values and ordered maps
  // ---------------------------------------------------------------------------

  /** A stored value: a string, or JavaScript's `undefined`. */
  datatype JsValue = Undefined | Str(s: string)

  /** How a template literal renders a value: `undefined` becomes the text "undefined". */
  function Render(v: JsValue): string
  {
    match v
    case Undefined => "undefined"
    case Str(s) => s
  }

  /** A plain object: its entries in first-insertion order. */
  type Params = seq<(string, JsValue)>

  /** The keys of `m`, in order: what `Object.keys` returns for string keys. */
  function Keys(m: Params): (ks: seq<string>)
    ensures |ks| == |m| && forall i :: 0 <= i < |m| ==> ks[i] == m[i].0
    decreases |m|
  {
    if |m| == 0 then [] else [m[0].0] + Keys(m[1..])
  }

  /** No key is stored twice, as in every JavaScript object. */
  ghost predicate DistinctKeys(m: Params)
    decreases |m|
  {
    |m| == 0 || (m[0].0 !in Keys(m[1..]) && DistinctKeys(m[1..]))
  }

  /** The value stored under `k`, or None when `k` is not a key of `m`. */
  function Lookup(m: Params, k: string): (r: Option<JsValue>)
    ensures r.Some? <==> k in Keys(m)
    ensures r.Some? ==> (k, r.value) in m
    decreases |m|
  {
    if |m| == 0 then None
    else if m[0].0 == k then Some(m[0].1)
    else
      var r := Lookup(m[1..], k);
      assert Keys(m) == [m[0].0] + Keys(m[1..]);
      r
  }

  /** Property access `obj[k]`: a missing key reads as `undefined`. */
  function Get(m: Params, k: string): (v: JsValue)
    ensures k !in Keys(m) ==> v == Undefined
    ensures forall w :: Lookup(m, k) == Some(w) ==> v == w
  {
    match Lookup(m, k)
    case None => Undefined
    case Some(w) => w
  }

  /**
   * `{...m, [k]: v}`: a new key goes last, an existing key keeps its place,
   * and no key is ever stored twice.
   */
  function Put(m: Params, k: string, v: JsValue): (r: Params)
    ensures Keys(r) == if k in Keys(m) then Keys(m) else Keys(m) + [k]
    ensures DistinctKeys(m) ==> DistinctKeys(r)
    decreases |m|
  {
    if |m| == 0 then [(k, v)]
    else if m[0].0 == k then
      assert ([(k, v)] + m[1..])[1..] == m[1..];
      [(k, v)] + m[1..]
    else
      var rest := Put(m[1..], k, v);
      assert ([m[0]] + rest)[1..] == rest;
      [m[0]] + rest
  }

  /** After `Put`, `k` holds the new value and every other key holds what it held before. */
  lemma {:induction false} PutLookup(m: Params, k: string, v: JsValue)
    ensures Lookup(Put(m, k, v), k) == Some(v)
    ensures forall k' :: k' != k ==> Lookup(Put(m, k, v), k') == Lookup(m, k')
    decreases |m|
  {
    if |m| > 0 && m[0].0 != k {
      PutLookup(m[1..], k, v);
    }
  }

  /**
   * The rest object of `const {a, b, ...rest} = m`: the entries whose keys are
   * not in `ks`, in their original order.
   */
  function Without(m: Params, ks: set<string>): (r: Params)
    ensures forall e :: e in r <==> e in m && e.0 !in ks
    ensures DistinctKeys(m) ==> DistinctKeys(r)
    decreases |m|
  {
    if |m| == 0 then []
    else
      var rest := Without(m[1..], ks);
      assert m == [m[0]] + m[1..];
      if m[0].0 in ks then rest
      else
        assert ([m[0]] + rest)[1..] == rest;
        [m[0]] + rest
  }

  /** A removed key reads as missing; every other key reads as before. */
  lemma {:induction false} WithoutLookup(m: Params, ks: set<string>, k: string)
    ensures Lookup(Without(m, ks), k) == if k in ks then None else Lookup(m, k)
    decreases |m|
  {
    if |m| > 0 {
      WithoutLookup(m[1..], ks, k);
      if m[0].0 !in ks {
        assert ([m[0]] + Without(m[1..], ks))[1..] == Without(m[1..], ks);
      }
    }
  }

  /** Removing keys keeps the relative order of what remains. */
  lemma {:induction false} WithoutAppend(a: Params, b: Params, ks: set<string>)
    ensures Without(a + b, ks) == Without(a, ks) + Without(b, ks)
    decreases |a|
  {
    if |a| == 0 {
      assert a + b == b;
    } else {
      assert (a + b)[0] == a[0] && (a + b)[1..] == a[1..] + b;
      WithoutAppend(a[1..], b, ks);
    }
  }

  // ---------------------------------------------------------------------------
  // parseQueryParams
  // ---------------------------------------------------------------------------

  /** A key gets timestamp treatment when it mentions "time" but not "isrealtime", ignoring case. */
  predicate IsTimeKey(key: string)
  {
    Contains(ToLower(key), "time") && !Contains(ToLower(key), "isrealtime")
  }

  /** `value?.trim()`. */
  function TrimValue(v: JsValue): JsValue
  {
    match v
    case Undefined => Undefined
    case Str(s) => Str(Trim(s))
  }

  /**
   * The value stored for `key`, from the first value fragment and the
   * fragments after it: a timestamp key glues them back together with colons,
   * any other key keeps only the first fragment; quotes are removed either way.
   */
  function FieldValue(key: string, value: JsValue, other: seq<string>): JsValue
  {
    if IsTimeKey(key) then
      Str(StripQuotes(Render(TrimValue(value)) + ":" + Join(other, ":")))
    else
      match TrimValue(value)
      case Undefined => Undefined
      case Str(s) => Str(StripQuotes(s))
  }

  /**
   * One line of the payload: None when the line is dropped (its first value
   * fragment trims to "null"), otherwise the key, exactly as written, and the
   * value stored under it.
   */
  function ParseLine(line: string): (r: Option<(string, JsValue)>)
    ensures r.Some? ==> r.value.0 == Split(line, ':')[0]
  {
    var frags := Split(line, ':');
    var key := frags[0];
    var value := if |frags| > 1 then Str(frags[1]) else Undefined;
    var other := if |frags| > 2 then frags[2..] else [];
    if value.Str? && Trim(value.s) == "null" then None
    else Some((key, FieldValue(key, value, other)))
  }

  /** What one line contributes: None when it is dropped, or the key and its value. */
  type Entry = Option<(string, JsValue)>

  /** Whether a line's entry stores a value under `k`. */
  predicate StoresKey(e: Entry, k: string)
  {
    e.Some? && e.value.0 == k
  }

  /** One step of the `reduce`: a dropped line leaves the object as it is. */
  function Step(m: Params, e: Entry): Params
  {
    match e
    case None => m
    case Some(kv) => Put(m, kv.0, kv.1)
  }

  /** The `reduce` over the lines' entries, from an empty object. */
  function Fold(es: seq<Entry>): (m: Params)
    ensures DistinctKeys(m)
    decreases |es|
  {
    if |es| == 0 then []
    else Step(Fold(es[..|es| - 1]), es[|es| - 1])
  }

  /** The entries of the lines, in order. */
  function Entries(lines: seq<string>): (es: seq<Entry>)
    ensures |es| == |lines|
  {
    seq(|lines|, i requires 0 <= i < |lines| => ParseLine(lines[i]))
  }

  /** `parseQueryParams`: the payload split on newlines, folded into an object. */
  function ParsePayload(text: string): Params
  {
    Fold(Entries(Split(text, '\n')))
  }

  // --- what one line contributes ---------------------------------------------

  /** How a line `key:first<tail>` splits, where `tail` is empty or starts a new fragment. */
  lemma SplitLine(key: string, first: string, tail: string)
    requires ':' !in key && ':' !in first
    requires tail == "" || tail[0] == ':'
    ensures var frags := Split(key + ":" + first + tail, ':');
      && |frags| >= 2 && frags[0] == key && frags[1] == first
      && (tail == "" ==> |frags| == 2)
      && (tail != "" ==> frags[2..] == Split(tail[1..], ':'))
  {
    var line := key + ":" + first + tail;
    assert line == key + [':'] + (first + tail);
    SplitAtFirstSeparator(key, ':', first + tail);
    assert Split(line, ':') == [key] + Split(first + tail, ':');
    SplitValue(first, tail);
  }

  /** How the text after the key's colon splits. */
  lemma SplitValue(first: string, tail: string)
    requires ':' !in first
    requires tail == "" || tail[0] == ':'
    ensures tail == "" ==> Split(first + tail, ':') == [first]
    ensures tail != "" ==> Split(first + tail, ':') == [first] + Split(tail[1..], ':')
  {
    if tail == "" {
      assert first + tail == first;
      SplitNoSeparator(first, ':');
    } else {
      assert tail == [':'] + tail[1..];
      assert first + tail == first + [':'] + tail[1..];
      SplitAtFirstSeparator(first, ':', tail[1..]);
    }
  }

  /** A line without any colon stores `undefined` under the whole line ("undefined:" for a timestamp key). */
  lemma LineWithoutColon(line: string)
    requires ':' !in line
    ensures ParseLine(line) == Some((line, if IsTimeKey(line) then Str("undefined:") else Undefined))
  {
    SplitNoSeparator(line, ':');
    assert ParseLine(line) == Some((line, FieldValue(line, Undefined, [])));
    MissingValue(line);
  }

  /** A missing value stays `undefined`, except under a timestamp key, where it reads "undefined:". */
  lemma MissingValue(key: string)
    ensures FieldValue(key, Undefined, []) == if IsTimeKey(key) then Str("undefined:") else Undefined
  {
    if IsTimeKey(key) {
      var text := "undefined:";
      assert Render(TrimValue(Undefined)) + ":" + Join([], ":") == text by {
        assert Join([], ":") == "";
      }
      assert forall i :: 0 <= i < |text| ==> !IsQuote(text[i]);
      StripQuotesIdentity(text);
    }
  }

  /** A line whose first value fragment trims to "null" is dropped, whatever its key. */
  lemma NullValueDropped(key: string, first: string, tail: string)
    requires ':' !in key && ':' !in first
    requires tail == "" || tail[0] == ':'
    requires Trim(first) == "null"
    ensures ParseLine(key + ":" + first + tail) == None
  {
    SplitLine(key, first, tail);
  }

  /**
   * An ordinary key stores its first value fragment, trimmed and without
   * quotes; whatever follows the next colon is discarded.
   */
  lemma ScalarValue(key: string, first: string, tail: string)
    requires ':' !in key && ':' !in first
    requires tail == "" || tail[0] == ':'
    requires !IsTimeKey(key) && Trim(first) != "null"
    ensures ParseLine(key + ":" + first + tail) == Some((key, Str(StripQuotes(Trim(first)))))
  {
    SplitLine(key, first, tail);
  }

  /**
   * A timestamp key keeps the whole text after its colon, colons included:
   * the first value fragment trimmed at both ends, then a colon and the rest
   * exactly as written, with quotes removed.
   */
  lemma TimeValueKeepsColons(key: string, first: string, rest: string)
    requires ':' !in key && ':' !in first
    requires IsTimeKey(key) && Trim(first) != "null"
    ensures ParseLine(key + ":" + first + ":" + rest)
            == Some((key, Str(StripQuotes(Trim(first) + ":" + rest))))
  {
    var line := key + ":" + first + ":" + rest;
    assert line == key + ":" + first + (":" + rest);
    SplitLine(key, first, ":" + rest);
    assert (":" + rest)[1..] == rest;
    var other := Split(rest, ':');
    assert Split(line, ':')[2..] == other;
    assert ParseLine(line) == Some((key, FieldValue(key, Str(first), other)));
    TimeFieldValue(key, first, rest);
  }

  /** The timestamp value glued back from `first` and the fragments of `rest`. */
  lemma TimeFieldValue(key: string, first: string, rest: string)
    requires IsTimeKey(key)
    ensures FieldValue(key, Str(first), Split(rest, ':')) == Str(StripQuotes(Trim(first) + ":" + rest))
  {
    var other := Split(rest, ':');
    assert FieldValue(key, Str(first), other) == Str(StripQuotes(Trim(first) + ":" + Join(other, ":")));
    assert Join(other, ":") == rest;
  }

  /**
   * When the first value fragment does not end in white space, the stored
   * timestamp is the text after the key's colon with only its start trimmed.
   */
  lemma TimeValueTrimsStart(key: string, first: string, rest: string)
    requires ':' !in key && ':' !in first
    requires IsTimeKey(key) && Trim(first) != "null"
    requires NoTrailingSpace(first)
    ensures ParseLine(key + ":" + first + ":" + rest)
            == Some((key, Str(StripQuotes(TrimStart(first + ":" + rest)))))
  {
    TimeValueKeepsColons(key, first, rest);
    TrimStartBeforeColon(first, rest);
  }

  /** A timestamp value with no further colon gains a trailing colon. */
  lemma TimeValueTrailingColon(key: string, first: string)
    requires ':' !in key && ':' !in first
    requires IsTimeKey(key) && Trim(first) != "null"
    ensures ParseLine(key + ":" + first) == Some((key, Str(StripQuotes(Trim(first)) + ":")))
  {
    assert key + ":" + first == key + ":" + first + "";
    SplitLine(key, first, "");
    assert ParseLine(key + ":" + first) == Some((key, FieldValue(key, Str(first), [])));
    assert Trim(first) + ":" + Join([], ":") == Trim(first) + ":";
    StripQuotesAppend(Trim(first), ":");
    StripQuotesIdentity(":");
  }

  // --- what the whole payload yields -----------------------------------------

  /** A dropped line adds no key and leaves every earlier entry as it was. */
  lemma NullLineLeavesParams(lines: seq<string>, key: string, first: string, tail: string)
    requires ':' !in key && ':' !in first
    requires tail == "" || tail[0] == ':'
    requires Trim(first) == "null"
    ensures Fold(Entries(lines + [key + ":" + first + tail])) == Fold(Entries(lines))
  {
    var line := key + ":" + first + tail;
    NullValueDropped(key, first, tail);
    var es := Entries(lines + [line]);
    assert es[..|lines|] == Entries(lines);
    assert es[|lines|] == None;
    assert Fold(es) == Step(Fold(es[..|lines|]), es[|lines|]);
  }

  /** One step of the fold changes only the key its entry stores. */
  lemma StepLookup(m: Params, e: Entry, k: string)
    ensures Lookup(Step(m, e), k) == if StoresKey(e, k) then Some(e.value.1) else Lookup(m, k)
  {
    if e.Some? {
      PutLookup(m, e.value.0, e.value.1);
    }
  }

  /** The value the last entry storing `k` carries, or None when no entry stores `k`. */
  ghost function LastStored(es: seq<Entry>, k: string): Option<JsValue>
    decreases |es|
  {
    if |es| == 0 then None
    else if StoresKey(es[|es| - 1], k) then Some(es[|es| - 1].value.1)
    else LastStored(es[..|es| - 1], k)
  }

  /** Reading a key from the folded object reads the last entry that stores it. */
  lemma {:induction false} FoldLookup(es: seq<Entry>, k: string)
    ensures Lookup(Fold(es), k) == LastStored(es, k)
    decreases |es|
  {
    if |es| > 0 {
      var init := es[..|es| - 1];
      FoldLookup(init, k);
      StepLookup(Fold(init), es[|es| - 1], k);
    }
  }

  /** A key is absent from the object exactly when no line's entry stores it. */
  lemma {:induction false} AbsentKeyNeverStored(es: seq<Entry>, k: string)
    ensures Lookup(Fold(es), k).None? <==> forall i :: 0 <= i < |es| ==> !StoresKey(es[i], k)
  {
    FoldLookup(es, k);
    NeverStored(es, k);
  }

  /** No entry stores `k` exactly when there is no last one that does. */
  lemma {:induction false} NeverStored(es: seq<Entry>, k: string)
    ensures LastStored(es, k).None? <==> forall i :: 0 <= i < |es| ==> !StoresKey(es[i], k)
    decreases |es|
  {
    if |es| > 0 {
      NeverStored(es[..|es| - 1], k);
    }
  }

  /**
   * The last entry that stores a value under `k` decides it; later entries
   * with other keys, and dropped lines, do not matter.
   */
  lemma {:induction false} LastDefinitionWins(es: seq<Entry>, k: string, i: nat)
    requires i < |es| && StoresKey(es[i], k)
    requires forall j :: i < j < |es| ==> !StoresKey(es[j], k)
    ensures Lookup(Fold(es), k) == Some(es[i].value.1)
  {
    FoldLookup(es, k);
    LastStoredAt(es, k, i);
  }

  /** The last entry that stores `k` is the one `LastStored` reports. */
  lemma {:induction false} LastStoredAt(es: seq<Entry>, k: string, i: nat)
    requires i < |es| && StoresKey(es[i], k)
    requires forall j :: i < j < |es| ==> !StoresKey(es[j], k)
    ensures LastStored(es, k) == Some(es[i].value.1)
    decreases |es|
  {
    if i < |es| - 1 {
      LastStoredAt(es[..|es| - 1], k, i);
    }
  }

  /**
   * Keys appear in the order of their first insertion: the keys after the
   * first `n` entries stay, in order, at the front of the final key list.
   */
  lemma {:induction false} KeysKeepInsertionOrder(es: seq<Entry>, n: nat)
    requires n <= |es|
    ensures Keys(Fold(es[..n])) <= Keys(Fold(es))
    decreases |es| - n
  {
    if n < |es| {
      KeysKeepInsertionOrder(es, n + 1);
      assert es[..n + 1][..n] == es[..n];
      assert Fold(es[..n + 1]) == Step(Fold(es[..n]), es[n]);
    } else {
      assert es[..n] == es;
    }
  }

  // ---------------------------------------------------------------------------
  // formatQueryParams
  // ---------------------------------------------------------------------------

  /** One `key=value` pair, verbatim. */
  function Pair(e: (string, JsValue)): string
  {
    e.0 + "=" + Render(e.1)
  }

  /** `formatQueryParams`: the pairs in key order, joined by `&`, with no escaping. */
  function FormatQueryParams(m: Params): (q: string)
    ensures q == "" <==> m == []
  {
    var pairs := seq(|m|, i requires 0 <= i < |m| => Pair(m[i]));
    assert |m| >= 1 ==> |Join(pairs, "&")| >= |pairs[0]| by {
      if |m| > 1 {
        assert Join(pairs, "&") == pairs[0] + "&" + Join(pairs[1..], "&");
      }
    }
    Join(pairs, "&")
  }

  /** Splits one `key=value` text at its first `=`. */
  function SplitPair(p: string): (string, string)
  {
    match IndexOf(p, "=")
    case None => (p, "")
    case Some(i) => (p[..i], p[i + 1..])
  }

  /** Reads a query string back into (key, text) pairs. */
  function DecodeQuery(q: string): seq<(string, string)>
  {
    if q == "" then []
    else
      var parts := Split(q, '&');
      seq(|parts|, i requires 0 <= i < |parts| => SplitPair(parts[i]))
  }

  /** The entries of `m` with their values rendered as text. */
  function Rendered(m: Params): seq<(string, string)>
  {
    seq(|m|, i requires 0 <= i < |m| => (m[i].0, Render(m[i].1)))
  }

  /**
   * Without escaping, the query string can be read back exactly when no key
   * holds `&` or `=` and no value holds `&`.
   */
  lemma FormatDecodeRoundTrip(m: Params)
    requires forall i :: 0 <= i < |m| ==> '&' !in m[i].0 && '=' !in m[i].0 && '&' !in Render(m[i].1)
    ensures DecodeQuery(FormatQueryParams(m)) == Rendered(m)
  {
    if |m| > 0 {
      var pairs := seq(|m|, i requires 0 <= i < |m| => Pair(m[i]));
      forall i | 0 <= i < |pairs| ensures '&' !in pairs[i] {
        assert pairs[i] == m[i].0 + "=" + Render(m[i].1);
      }
      assert "&" == ['&'];
      SplitJoin(pairs, '&');
      forall i | 0 <= i < |m| ensures SplitPair(pairs[i]) == (m[i].0, Render(m[i].1)) {
        SplitPairAtFirstEquals(m[i].0, Render(m[i].1));
      }
    }
  }

  /** A pair whose key has no `=` splits back into that key and value. */
  lemma SplitPairAtFirstEquals(k: string, v: string)
    requires '=' !in k
    ensures SplitPair(k + "=" + v) == (k, v)
  {
    var p := k + "=" + v;
    assert OccursAt(p, "=", |k|) by {
      assert p[|k|..|k| + 1] == "=";
    }
    forall j | 0 <= j < |k| ensures !OccursAt(p, "=", j) {
      assert p[j] == k[j];
    }
    assert p[..|k|] == k && p[|k| + 1..] == v;
  }

  // ---------------------------------------------------------------------------
  // The print URL
  // ---------------------------------------------------------------------------

  const ZoneIdKey: string := "zoneId"
  const ContainerIdKey: string := "containerId"

  /** Everything of the built URL after the origin and the mode segment. */
  function PrintPath(payload: string): string
  {
    var p := ParsePayload(payload);
    "print/dvr/" + Render(Get(p, ZoneIdKey)) + "/" + Render(Get(p, ContainerIdKey))
      + "?" + FormatQueryParams(Without(p, {ZoneIdKey, ContainerIdKey}))
  }

  /** The URL template for a non-empty payload. */
  function BuildUrl(env: string, mode: string, payload: string): string
  {
    Origin(env) + ModeSegment(mode) + PrintPath(payload)
  }

  /** The URL the payload handler sets: the fixed initial URL when the payload is empty. */
  function PayloadUrl(env: string, mode: string, payload: string): string
  {
    if |payload| == 0 then InitialUrl else BuildUrl(env, mode, payload)
  }

  /** On a URL that starts with the current origin, switching swaps just that origin. */
  lemma SwitchEnvRebuilds(fromEnv: string, toEnv: string, mode: string, path: string)
    ensures ReplaceFirst(Origin(fromEnv) + ModeSegment(mode) + path, Origin(fromEnv), Origin(toEnv))
            == Origin(toEnv) + ModeSegment(mode) + path
  {
    ReplaceFirstPrefix(Origin(fromEnv), ModeSegment(mode), path, Origin(toEnv));
  }

  /** Switching the environment of a URL built for a payload gives the URL built for the new environment. */
  lemma SwitchEnvOnBuiltUrl(fromEnv: string, toEnv: string, mode: string, payload: string)
    ensures ReplaceFirst(BuildUrl(fromEnv, mode, payload), Origin(fromEnv), Origin(toEnv)) == BuildUrl(toEnv, mode, payload)
  {
    SwitchEnvRebuilds(fromEnv, toEnv, mode, PrintPath(payload));
  }

  /**
   * Switching the environment keeps a URL in step with its payload: if the
   * URL was built from the old environment, the replaced URL is the one built
   * from the new environment.
   */
  lemma SwitchEnvKeepsSync(url: string, fromEnv: string, toEnv: string, mode: string, payload: string)
    requires |payload| > 0 ==> url == BuildUrl(fromEnv, mode, payload)
    ensures |payload| > 0 ==> ReplaceFirst(url, Origin(fromEnv), Origin(toEnv)) == BuildUrl(toEnv, mode, payload)
  {
    if |payload| > 0 {
      SwitchEnvOnBuiltUrl(fromEnv, toEnv, mode, payload);
    }
  }

  /** Every slash in `o` is followed, two places on and still inside `o`, by something else. */
  ghost predicate NoSlashPair(o: string)
  {
    forall j :: 0 <= j < |o| && o[j] == '/' ==> j + 2 < |o| && o[j + 2] != '/'
  }

  /** The only slashes in an origin are the two after the scheme. */
  lemma OriginsHaveNoSlashPair()
    ensures NoSlashPair(RemoteOrigin) && NoSlashPair(LocalOrigin)
  {
    forall j | 0 <= j < |RemoteOrigin| && RemoteOrigin[j] == '/' ensures j + 2 < |RemoteOrigin| && RemoteOrigin[j + 2] != '/' {
      assert j == 6 || j == 7;
    }
    forall j | 0 <= j < |LocalOrigin| && LocalOrigin[j] == '/' ensures j + 2 < |LocalOrigin| && LocalOrigin[j + 2] != '/' {
      assert j == 5 || j == 6;
    }
  }

  /** Wherever a mode segment occurs, a slash opens it and a slash closes it. */
  lemma SegmentBetweenSlashes(s: string, seg: string, j: int)
    requires seg == "/s/" || seg == "/i/"
    ensures OccursAt(s, seg, j) ==> s[j] == '/' && s[j + 2] == '/'
  {
    if OccursAt(s, seg, j) {
      var w := s[j..j + 3];
      assert w == seg;
      assert s[j] == w[0] && s[j + 2] == w[2];
    }
  }

  /** No mode segment starts inside an origin, not even across its end. */
  lemma NoSegmentInsideOrigin(env: string, mode: string, path: string)
    ensures forall j :: 0 <= j < |Origin(env)| ==> !OccursAt(Origin(env) + ModeSegment(mode) + path, ModeSegment(mode), j)
  {
    var o, seg := Origin(env), ModeSegment(mode);
    assert seg == "/s/" || seg == "/i/";
    OriginsHaveNoSlashPair();
    assert NoSlashPair(o);
    var s := o + seg + path;
    forall j | 0 <= j < |o| ensures !OccursAt(s, seg, j) {
      SegmentBetweenSlashes(s, seg, j);
      assert s[j] == o[j];
      assert o[j] == '/' ==> j + 2 < |o| && s[j + 2] == o[j + 2] != '/';
    }
  }

  /** On a URL built with the current mode, switching swaps just the segment after the origin. */
  lemma SwitchModeRebuilds(env: string, fromMode: string, toMode: string, path: string)
    ensures ReplaceFirst(Origin(env) + ModeSegment(fromMode) + path, ModeSegment(fromMode), ModeSegment(toMode))
            == Origin(env) + ModeSegment(toMode) + path
  {
    NoSegmentInsideOrigin(env, fromMode, path);
    ReplaceFirstAfter(Origin(env), ModeSegment(fromMode), path, ModeSegment(toMode));
  }

  /** Switching the mode of a URL built for a payload gives the URL built for the new mode. */
  lemma SwitchModeOnBuiltUrl(env: string, fromMode: string, toMode: string, payload: string)
    ensures ReplaceFirst(BuildUrl(env, fromMode, payload), ModeSegment(fromMode), ModeSegment(toMode)) == BuildUrl(env, toMode, payload)
  {
    SwitchModeRebuilds(env, fromMode, toMode, PrintPath(payload));
  }

  /** Switching the mode keeps a URL in step with its payload, as for the environment. */
  lemma SwitchModeKeepsSync(url: string, env: string, fromMode: string, toMode: string, payload: string)
    requires |payload| > 0 ==> url == BuildUrl(env, fromMode, payload)
    ensures |payload| > 0 ==> ReplaceFirst(url, ModeSegment(fromMode), ModeSegment(toMode)) == BuildUrl(env, toMode, payload)
  {
    if |payload| > 0 {
      SwitchModeOnBuiltUrl(env, fromMode, toMode, payload);
    }
  }

  /**
   * The initial URL is the one built for the remote origin and the standalone
   * segment: with the local environment selected it does not start with the
   * selected origin, and with the integrated mode selected the segment after
   * its origin is not the selected one.
   */
  lemma InitialUrlIgnoresSelection(env: string, mode: string)
    ensures InitialUrl == Origin("remote") + ModeSegment("standalone") + DefaultPath
    ensures env != "remote" ==> !StartsWith(InitialUrl, Origin(env))
    ensures mode != "standalone" ==> !StartsWith(InitialUrl[|RemoteOrigin|..], ModeSegment(mode))
  {
    if env != "remote" {
      var s, o := InitialUrl, LocalOrigin;
      assert s[4] != o[4];
      assert s[..|o|][4] == s[4];
    }
    if mode != "standalone" {
      var s := InitialUrl[|RemoteOrigin|..];
      assert s == "/s/" + DefaultPath;
      assert s[1] == 's';
      assert s[..3][1] == s[1];
    }
  }
}
