/** The chart query service: picks a bucket width for a time span, floors
    reading times to the minute, aligns the readings of every sensor on one
    shared, sorted time axis (a result matrix with gaps), and gates request
    paths through an allow-list. Tables are maps keyed by `(time, sensor)`;
    the clock `now` and the query parameters are plain integers. */
module MeasurementBrowser {
  import opened Wrappers
  import opened Tables
  import opened Epoch
  import opened Text

  // ---------------------------------------------------------------------------
  // Time buckets

  /** `round_to_minute`: seconds are zeroed, minute, hour and date are kept. */
  function RoundToMinute(t: int): (r: int)
    ensures r % Minute == 0
    ensures r <= t < r + Minute
  {
    FloorTo(t, Minute)
  }

  /** Rounding keeps the minute (`t` and the result lie in the same minute)
      and rounding twice changes nothing. */
  lemma RoundToMinuteKeepsMinute(t: int)
    ensures RoundToMinute(t) / Minute == t / Minute
    ensures RoundToMinute(RoundToMinute(t)) == RoundToMinute(t)
  {
    FloorToIdempotent(t, Minute);
    var r := RoundToMinute(t);
    ModZero(r, Minute);
    assert t == r + (t - r) && 0 <= t - r < Minute;
    assert t == (r / Minute) * Minute + (t - r);
  }

  /** `resolve_window`: the bucket width for a span of `end - start` seconds. */
  function ResolveWindow(start: int, end: int): (w: int)
    ensures w == 60 || w == 3600 || w == 10800 || w == 86400
  {
    var span := end - start;
    if span < Day then 60
    else if span < 7 * Day then 3600
    else if span < 32 * Day then 10800
    else 86400
  }

  /** A longer span never gets a narrower bucket. */
  lemma ResolveWindowMonotonic(start: int, end: int, start': int, end': int)
    requires end - start <= end' - start'
    ensures ResolveWindow(start, end) <= ResolveWindow(start', end')
  {
  }

  /** Below 32 days the chosen width keeps the chart under 1440 buckets. */
  lemma ResolveWindowBucketCount(start: int, end: int)
    requires 0 <= end - start < 32 * Day
    ensures (end - start) / ResolveWindow(start, end) < 1440
  {
  }

  // ---------------------------------------------------------------------------
  // The measurement type parameter: `re.match(r'[a-z_]{1,20}', p).group(0)`.

  predicate IsTypeChar(c: char) {
    'a' <= c <= 'z' || c == '_'
  }

  /** The longest prefix of `p`, at most `limit` long, made of `[a-z_]`. */
  function TypePrefix(p: string, limit: nat): (r: string)
    ensures |r| <= limit && r <= p
    ensures forall i :: 0 <= i < |r| ==> IsTypeChar(r[i])
    ensures |r| == limit || |r| == |p| || !IsTypeChar(p[|r|])
  {
    if limit == 0 || p == [] || !IsTypeChar(p[0]) then []
    else [p[0]] + TypePrefix(p[1..], limit - 1)
  }

  /** The measurement type in a query: `None` when the parameter does not
      start with `[a-z_]` (the match fails and the query raises). */
  function MeasurementType(p: string): (r: Option<string>)
    ensures r.None? <==> p == [] || !IsTypeChar(p[0])
    ensures r.Some? ==>
      && 1 <= |r.value| <= 20
      && r.value <= p
      && (forall i :: 0 <= i < |r.value| ==> IsTypeChar(r.value[i]))
      && (|r.value| == 20 || |r.value| == |p| || !IsTypeChar(p[|r.value|]))
  {
    var r := TypePrefix(p, 20);
    if r == [] then None else Some(r)
  }

  /** Only lower-case letters and `_` reach the table name, so the type can
      never carry a quote, a space or a `..`. */
  lemma MeasurementTypeIsSafe(p: string)
    requires MeasurementType(p).Some?
    ensures forall c :: c in MeasurementType(p).value ==> c != '.' && c != '\'' && c != ' ' && c != ';'
  {
  }

  // ---------------------------------------------------------------------------
  // Request paths

  const AllowList: seq<string> := [
    "index.html", "style.css", "spa.js", "uPlot.min.css", "uPlot.iife.min.js",
    "measurements.json", "summaries.json", "sensors.json"
  ]

  predicate HasDotDot(s: string) {
    exists i :: 0 <= i < |s| - 1 && s[i] == '.' && s[i + 1] == '.'
  }

  /** `s.replace('..', '')`: removes non-overlapping `..` pairs, scanning from
      the left. */
  function StripDotDot(s: string): (r: string)
    ensures |r| <= |s|
    ensures forall c :: c in r ==> c in s
  {
    if |s| >= 2 && s[0] == '.' && s[1] == '.' then StripDotDot(s[2..])
    else if s == [] then []
    else [s[0]] + StripDotDot(s[1..])
  }

  /** A string not starting with a dot keeps its first character. */
  lemma StripDotDotFirst(s: string)
    requires s != [] && s[0] != '.'
    ensures StripDotDot(s) != [] && StripDotDot(s)[0] == s[0]
  {
  }

  /** After the replacement no `..` is left: a dot that survives is followed
      in the input by a character that is not a dot, and that character
      survives too. */
  lemma {:induction false} StripDotDotLeavesNoDotDot(s: string)
    ensures !HasDotDot(StripDotDot(s))
  {
    if |s| >= 2 && s[0] == '.' && s[1] == '.' {
      StripDotDotLeavesNoDotDot(s[2..]);
    } else if s != [] {
      var rest := StripDotDot(s[1..]);
      StripDotDotLeavesNoDotDot(s[1..]);
      var r := [s[0]] + rest;
      assert StripDotDot(s) == r;
      if s[0] == '.' && rest != [] {
        assert |s| >= 2 && s[1] != '.';
        StripDotDotFirst(s[1..]);
      }
      forall i | 0 <= i < |r| - 1
        ensures !(r[i] == '.' && r[i + 1] == '.')
      {
        if i > 0 {
          assert r[i] == rest[i - 1] && r[i + 1] == rest[i];
        }
      }
    }
  }

  /** The text of `s` before the first `/`, `?` or `#`. */
  function Authority(s: string): (r: string)
    ensures r <= s && '/' !in r && '?' !in r && '#' !in r
    ensures |r| < |s| ==> s[|r|] in "/?#"
  {
    if s == [] || s[0] in "/?#" then [] else [s[0]] + Authority(s[1..])
  }

  /** The network location `urlsplit` takes off a scheme-less target: a
      target starting with `//` loses the `//` and the text up to the next
      `/`, `?` or `#`; any other target is kept. */
  function WithoutNetloc(s: string): (r: string)
    ensures |r| <= |s| && r == s[|s| - |r|..]
    ensures !(|s| >= 2 && s[0] == '/' && s[1] == '/') ==> r == s
  {
    if |s| >= 2 && s[0] == '/' && s[1] == '/' then s[2 + |Authority(s[2..])|..] else s
  }

  /** `_splitparams`: the last segment of the path loses its first `;` and
      everything after it; the segments before it are kept. */
  function WithoutParams(p: string): (r: string)
    ensures r <= p
    ensures LastSegment(r) == Before(LastSegment(p), ';')
  {
    var seg := LastSegment(p);
    var head := p[..|p| - |seg|];
    var kept := Before(seg, ';');
    assert head + seg == p;
    LastSegmentAppend(head, kept);
    head + kept
  }

  /** `urlparse(s).path` for a scheme-less request target: the network
      location, the fragment, the query and the last segment's parameters
      are cut off, in that order. */
  function UrlPath(s: string): (r: string)
    ensures r <= Before(Before(WithoutNetloc(s), '#'), '?')
    ensures ';' !in LastSegment(r)
  {
    WithoutParams(Before(Before(WithoutNetloc(s), '#'), '?'))
  }

  /** `urlparse(s).query`: the text after the first `?` of what precedes the
      fragment, once the network location is cut off. */
  function UrlQuery(s: string): (r: string)
    ensures var front := Before(WithoutNetloc(s), '#');
      '?' in front ==> front == Before(front, '?') + ['?'] + r
    ensures var front := Before(WithoutNetloc(s), '#');
      '?' !in front ==> r == []
  {
    var front := Before(WithoutNetloc(s), '#');
    assert '?' !in front ==> |Before(front, '?')| == |front|;
    After(front, '?')
  }

  /** `path.split('/')[-1]`: the text after the last `/`. */
  function LastSegment(path: string): (r: string)
    ensures '/' !in r
    ensures |r| <= |path| && r == path[|path| - |r|..]
    ensures |r| < |path| ==> path[|path| - |r| - 1] == '/'
  {
    if path == [] || path[|path| - 1] == '/' then []
    else LastSegment(path[..|path| - 1]) + [path[|path| - 1]]
  }

  /** Text without `/` appended to a path extends its last segment, or
      becomes it when the path ends in `/` (or is empty). */
  lemma {:induction false} LastSegmentAppend(head: string, tail: string)
    requires '/' !in tail
    requires head == [] || head[|head| - 1] == '/'
    ensures LastSegment(head + tail) == tail
  {
    if tail != [] {
      var front := tail[..|tail| - 1];
      assert (head + tail)[..|head + tail| - 1] == head + front;
      LastSegmentAppend(head, front);
    } else {
      assert head + tail == head;
    }
  }


  datatype Response =
    | ServeFile(file: string)          // handed to the static file server
    | Forbidden                        // 403 "Path not allowed"
    | MeasurementsQuery(query: string) // 200, the measurement matrix as JSON
    | SummariesQuery(query: string)    // 200, the hourly summary matrix as JSON

  /** `MeasurementHandler.do_GET`: the root serves `index.html`; any other
      path whose last segment is not allow-listed is refused; the two JSON
      endpoints answer queries; the rest goes to the static file server with
      the request path as received. */
  function Route(requestPath: string): (r: Response)
    ensures r.ServeFile? ==> r.file == "/index.html" || r.file == requestPath
  {
    var effective := StripDotDot(requestPath);
    var path := UrlPath(effective);
    if path == "/" || path == "" then ServeFile("/index.html")
    else if LastSegment(path) !in AllowList then Forbidden
    else Allowed(requestPath, path, UrlQuery(effective))
  }

  /** The answer to an allow-listed path: a JSON endpoint answers its query,
      anything else is a static file. */
  function Allowed(requestPath: string, path: string, query: string): (r: Response)
    ensures r != Forbidden
    ensures r.MeasurementsQuery? <==> EndsWith(path, "measurements.json")
    ensures r.SummariesQuery? <==> !EndsWith(path, "measurements.json") && EndsWith(path, "summaries.json")
    ensures r.MeasurementsQuery? || r.SummariesQuery? ==> r.query == query
  {
    if EndsWith(path, "measurements.json") then MeasurementsQuery(query)
    else if EndsWith(path, "summaries.json") then SummariesQuery(query)
    else ServeFile(requestPath)
  }

  /** A path is refused exactly when it is not the root and its last segment,
      after `..` is stripped and the query cut off, is not allow-listed; and
      the path that is checked holds no `..`. */
  lemma RouteGate(requestPath: string)
    ensures var path := UrlPath(StripDotDot(requestPath));
      Route(requestPath) == Forbidden <==>
        path != "/" && path != "" && LastSegment(path) !in AllowList
    ensures !HasDotDot(UrlPath(StripDotDot(requestPath)))
  {
    StripDotDotLeavesNoDotDot(requestPath);
    UrlPathNoDotDot(StripDotDot(requestPath));
  }

  /** A string without `..` is left as it is by the replacement. */
  lemma {:induction false} StripDotDotIdentity(s: string)
    requires !HasDotDot(s)
    ensures StripDotDot(s) == s
  {
    if s != [] {
      assert !HasDotDot(s[1..]) by {
        forall i | 0 <= i < |s[1..]| - 1
          ensures !(s[1..][i] == '.' && s[1..][i + 1] == '.')
        {
          assert s[1..][i] == s[i + 1] && s[1..][i + 1] == s[i + 2];
        }
      }
      StripDotDotIdentity(s[1..]);
    }
  }

  /** `urlparse` on `/name;params?query`: the path is `/name` and the query
      is `query`. */
  lemma UrlSplitsParams(name: string, params: string, query: string)
    requires '/' !in name && ';' !in name && '?' !in name && '#' !in name && name != []
    requires '/' !in params && '?' !in params && '#' !in params
    requires '#' !in query
    ensures UrlPath("/" + name + ";" + params + "?" + query) == "/" + name
    ensures UrlQuery("/" + name + ";" + params + "?" + query) == query
  {
    var tail := name + [';'] + params;
    var head := "/" + tail;
    var t := head + ['?'] + query;
    assert t == "/" + name + ";" + params + "?" + query;
    assert t[1] == name[0];
    assert WithoutNetloc(t) == t;
    NotInPrefixed(tail, '#');
    NotInJoined(head, query, '#');
    BeforeAbsent(t, '#');
    NotInPrefixed(tail, '?');
    SplitAtFirst(head, '?', query);
    NotInTail(name, params);
    LastSegmentAppend("/", tail);
    SplitAtFirst(name, ';', params);
  }

  lemma NotInPrefixed(tail: string, c: char)
    requires c != '/' && c !in tail
    ensures c !in "/" + tail
  {
  }

  lemma NotInJoined(head: string, query: string, c: char)
    requires c != '?' && c !in head && c !in query
    ensures c !in head + ['?'] + query
  {
  }

  /** `name;params` holds no `/` when neither part does. */
  lemma NotInTail(name: string, params: string)
    requires '/' !in name && '/' !in params
    ensures '/' !in name + [';'] + params
  {
  }

  /** A string without `..` and without a dot at either end, between a `/`
      and a `;`, followed by text without dots, holds no `..`. */
  lemma TargetNoDotDot(name: string, params: string, query: string)
    requires !HasDotDot(name) && '.' !in params && '.' !in query
    ensures !HasDotDot("/" + name + ";" + params + "?" + query)
  {
    var t := "/" + name + ";" + params + "?" + query;
    forall i | 0 <= i < |t| - 1
      ensures !(t[i] == '.' && t[i + 1] == '.')
    {
      if 1 <= i < |name| {
        assert t[i] == name[i - 1] && t[i + 1] == name[i];
      } else if i == |name| {
        assert t[i + 1] == ';';
      } else if |name| + 1 < i < |name| + 2 + |params| {
        assert t[i] == params[i - |name| - 2];
      } else if i > |name| + 2 + |params| {
        assert t[i] == query[i - |name| - 3 - |params|];
      }
    }
  }

  /** `;` parameters after a JSON endpoint's name do not hide it: `urlparse`
      splits them off, so the request answers its query. */
  lemma EndpointIgnoresParams(name: string, params: string, query: string)
    requires name == "measurements.json" || name == "summaries.json"
    requires '/' !in params && '?' !in params && '#' !in params && '.' !in params
    requires '#' !in query && '.' !in query
    ensures Route("/" + name + ";" + params + "?" + query) ==
      if name == "measurements.json" then MeasurementsQuery(query) else SummariesQuery(query)
  {
    var t := "/" + name + ";" + params + "?" + query;
    EndpointTarget(name, params, query);
    RouteAllowed(t);
  }

  /** The route of a target whose path is allow-listed. */
  lemma RouteAllowed(t: string)
    requires StripDotDot(t) == t
    requires UrlPath(t) != "/" && UrlPath(t) != "" && LastSegment(UrlPath(t)) in AllowList
    ensures Route(t) == Allowed(t, UrlPath(t), UrlQuery(t))
  {
  }

  lemma EndpointTarget(name: string, params: string, query: string)
    requires name == "measurements.json" || name == "summaries.json"
    requires '/' !in params && '?' !in params && '#' !in params && '.' !in params
    requires '#' !in query && '.' !in query
    ensures var t := "/" + name + ";" + params + "?" + query;
      && StripDotDot(t) == t && UrlPath(t) == "/" + name && UrlQuery(t) == query
      && LastSegment("/" + name) == name && name in AllowList
      && (EndsWith("/" + name, "measurements.json") <==> name == "measurements.json")
      && (name == "summaries.json" ==> EndsWith("/" + name, "summaries.json"))
  {
    var t := "/" + name + ";" + params + "?" + query;
    EndpointName(name);
    LastSegmentAppend("/", name);
    TargetNoDotDot(name, params, query);
    StripDotDotIdentity(t);
    UrlSplitsParams(name, params, query);
  }

  /** What routing needs to know of the two JSON endpoint names. */
  lemma EndpointName(name: string)
    requires name == "measurements.json" || name == "summaries.json"
    ensures !HasDotDot(name) && '/' !in name && ';' !in name && '?' !in name && '#' !in name
    ensures name != [] && name in AllowList
    ensures EndsWith("/" + name, "measurements.json") <==> name == "measurements.json"
    ensures name == "summaries.json" ==> EndsWith("/" + name, "summaries.json")
  {
    NameNoDotDot(name);
    NameChars(name);
    var path := "/" + name;
    assert path[1..] == name;
    if name == "measurements.json" {
      assert AllowList[5] == name;
    } else {
      assert AllowList[6] == name;
      assert |path| < |"measurements.json"|;
    }
  }

  lemma NameChars(name: string)
    requires name == "measurements.json" || name == "summaries.json"
    ensures '/' !in name && ';' !in name && '?' !in name && '#' !in name
  {
    if name == "measurements.json" {
      assert forall i :: 0 <= i < |name| ==> name[i] == "measurements.json"[i];
    } else {
      assert forall i :: 0 <= i < |name| ==> name[i] == "summaries.json"[i];
    }
  }

  lemma NameNoDotDot(name: string)
    requires name == "measurements.json" || name == "summaries.json"
    ensures !HasDotDot(name)
  {
    forall i | 0 <= i < |name| - 1
      ensures !(name[i] == '.' && name[i + 1] == '.')
    {
    }
  }

  /** A target that is only a network location, `//host`, has an empty path
      and is answered with the index page. */
  lemma NetlocOnlyIsRoot(host: string)
    requires '/' !in host && '?' !in host && '#' !in host && '.' !in host
    ensures Route("//" + host) == ServeFile("/index.html")
  {
    var t := "//" + host;
    assert !HasDotDot(t) by {
      forall i | 0 <= i < |t| - 1
        ensures !(t[i] == '.' && t[i + 1] == '.')
      {
        if i >= 2 {
          assert t[i] == host[i - 2];
        }
      }
    }
    StripDotDotIdentity(t);
    assert t[2..] == host;
    assert Authority(host) == host by {
      AuthorityAbsent(host);
    }
    assert WithoutNetloc(t) == [];
  }

  /** Without `/`, `?` or `#` the whole text is the network location. */
  lemma {:induction false} AuthorityAbsent(s: string)
    requires '/' !in s && '?' !in s && '#' !in s
    ensures Authority(s) == s
  {
    if s != [] {
      AuthorityAbsent(s[1..]);
    }
  }

  /** The path `urlparse` returns is a slice of the target, so it holds no
      `..` when the target holds none. */
  lemma UrlPathNoDotDot(effective: string)
    requires !HasDotDot(effective)
    ensures !HasDotDot(UrlPath(effective))
  {
    var rest := WithoutNetloc(effective);
    NoDotDotSlice(effective, |effective| - |rest|, |effective|);
    var front := Before(rest, '#');
    NoDotDotPrefix(rest, front);
    var path := Before(front, '?');
    NoDotDotPrefix(front, path);
    NoDotDotPrefix(path, UrlPath(effective));
  }

  /** A prefix of a string without `..` has none either. */
  lemma NoDotDotPrefix(s: string, r: string)
    requires r <= s && !HasDotDot(s)
    ensures !HasDotDot(r)
  {
    forall k | 0 <= k < |r| - 1
      ensures !(r[k] == '.' && r[k + 1] == '.')
    {
      assert r[k] == s[k] && r[k + 1] == s[k + 1];
    }
  }

  /** A slice of a string without `..` has none either. */
  lemma NoDotDotSlice(s: string, i: int, j: int)
    requires 0 <= i <= j <= |s| && !HasDotDot(s)
    ensures !HasDotDot(s[i..j])
  {
    forall k | 0 <= k < j - i - 1
      ensures !(s[i..j][k] == '.' && s[i..j][k + 1] == '.')
    {
      assert s[i..j][k] == s[i + k] && s[i..j][k + 1] == s[i + k + 1];
    }
  }

  /** Each JSON endpoint is reached only through its own allow-listed name. */
  lemma RouteQueries(requestPath: string)
    ensures Route(requestPath).MeasurementsQuery? ==>
      LastSegment(UrlPath(StripDotDot(requestPath))) == "measurements.json"
    ensures Route(requestPath).SummariesQuery? ==>
      LastSegment(UrlPath(StripDotDot(requestPath))) == "summaries.json"
  {
    var path := UrlPath(StripDotDot(requestPath));
    var seg := LastSegment(path);
    var r := Route(requestPath);
    assert r.MeasurementsQuery? ==> seg in AllowList && EndsWith(path, "measurements.json");
    assert r.SummariesQuery? ==> seg in AllowList && EndsWith(path, "summaries.json");
    EndpointNamesHaveNoSlash();
    SuffixOfSegment(path, seg, "measurements.json");
    SuffixOfSegment(path, seg, "summaries.json");
    if seg in AllowList {
      AllowedEndings(seg);
    }
  }

  lemma EndpointNamesHaveNoSlash()
    ensures '/' !in "measurements.json" && '/' !in "summaries.json"
  {
    assert forall i :: 0 <= i < |"measurements.json"| ==> "measurements.json"[i] != '/';
    assert forall i :: 0 <= i < |"summaries.json"| ==> "summaries.json"[i] != '/';
  }

  /** No other allow-listed name ends in the name of a JSON endpoint. */
  lemma AllowedEndings(seg: string)
    requires seg in AllowList
    ensures EndsWith(seg, "measurements.json") ==> seg == "measurements.json"
    ensures EndsWith(seg, "summaries.json") ==> seg == "summaries.json"
  {
    assert "uPlot.iife.min.js"[0] != "measurements.json"[0];
  }

  /** A suffix without `/` of a path is a suffix of its last segment. */
  lemma SuffixOfSegment(path: string, seg: string, suffix: string)
    requires seg == LastSegment(path) && '/' !in suffix
    ensures EndsWith(path, suffix) ==> EndsWith(seg, suffix)
  {
    if EndsWith(path, suffix) && |suffix| <= |seg| {
      assert seg[|seg| - |suffix|..] == path[|path| - |suffix|..];
    }
  }
}

module MeasurementMatrix {
  import opened Wrappers
  import opened Tables
  import opened Epoch

  /** A result matrix: the first row (the shared time axis) and one row per
      sensor (or three per sensor for summaries), each aligned to the axis. */
  datatype Matrix = Matrix(xs: seq<int>, rows: seq<seq<Option<real>>>)

  /** A table of nullable readings: the `median` column of a measurement
      table, or of an hourly summary table. */
  type Readings = map<Key, Option<real>>

  /** `k` is a reading of `sensor` in `[start, end)` whose time falls in the
      width-`p` bucket starting at `x`. */
  ghost predicate InBucket(t: Readings, k: Key, sensor: string, start: int, end: int, p: int, x: int)
    requires p > 0
  {
    k in t && k.1 == sensor && start <= k.0 < end && FloorTo(k.0, p) == x
  }

  /** `k` is the latest reading of `sensor` in bucket `x`. */
  ghost predicate LatestInBucket(t: Readings, k: Key, sensor: string, start: int, end: int, p: int, x: int)
    requires p > 0
  {
    && InBucket(t, k, sensor, start, end, p, x)
    && forall k' :: InBucket(t, k', sensor, start, end, p, x) ==> k'.0 <= k.0
  }

  /** The cell a sensor gets at bucket `x`: `None` when it has no reading in
      the bucket, otherwise the value of its latest reading there. */
  ghost predicate IsCell(t: Readings, sensor: string, start: int, end: int, p: int, x: int, c: Option<real>)
    requires p > 0
  {
    if exists k :: InBucket(t, k, sensor, start, end, p, x)
    then exists k :: LatestInBucket(t, k, sensor, start, end, p, x) && c == t[k]
    else c == None
  }

  /** The time axis: the bucket of every reading in `[start, end)`, each once,
      in increasing order. */
  ghost predicate IsAxis(xs: seq<int>, t: Readings, start: int, end: int, p: int)
    requires p > 0
  {
    && StrictlyIncreasing(xs)
    && forall x :: x in xs <==> exists k :: k in t && start <= k.0 < end && FloorTo(k.0, p) == x
  }

  /** `sensor_values.get(key, None)`. */
  function Get(values: map<(string, int), Option<real>>, key: (string, int)): Option<real> {
    if key in values then values[key] else None
  }

  /** The index of the last row of `rows` in bucket `x`, or -1 when there is none. */
  function LastIndex<V>(rows: seq<Row<V>>, p: int, x: int): (i: int)
    requires p > 0
    ensures -1 <= i < |rows|
    ensures i >= 0 ==> FloorTo(rows[i].at, p) == x
    ensures forall j :: i < j < |rows| ==> FloorTo(rows[j].at, p) != x
  {
    if rows == [] then -1
    else if FloorTo(rows[|rows| - 1].at, p) == x then |rows| - 1
    else
      var prefix := rows[..|rows| - 1];
      assert forall j :: 0 <= j < |prefix| ==> prefix[j] == rows[j];
      LastIndex(prefix, p, x)
  }

  /** Extending the prefix by row `j` makes `j` the last index of its bucket
      and changes no other bucket. */
  lemma LastIndexStep<V>(rows: seq<Row<V>>, j: int, p: int)
    requires p > 0 && 0 <= j < |rows|
    ensures forall x :: LastIndex(rows[..j + 1], p, x) == (if FloorTo(rows[j].at, p) == x then j else LastIndex(rows[..j], p, x))
  {
    var prefix := rows[..j + 1];
    assert prefix[..j] == rows[..j] && prefix[j] == rows[j];
    forall x
      ensures LastIndex(prefix, p, x) == (if FloorTo(rows[j].at, p) == x then j else LastIndex(rows[..j], p, x))
    {
      assert prefix != [] && |prefix| - 1 == j;
    }
  }

  /** Over one sensor's readings in time order, the last reading in a bucket
      is that sensor's latest reading there, and there is none exactly when
      the sensor has no reading in the bucket. */
  lemma LastIndexIsLatest(rows: seq<Row<Option<real>>>, t: Readings, sensor: string, start: int, end: int, p: int, x: int)
    requires p > 0
    requires TimeOrdered(rows)
    requires var s := SensorRange(t, sensor, start, end); Lists(rows, s, s.Keys)
    ensures var i := LastIndex(rows, p, x);
      && (i == -1 <==> forall k :: !InBucket(t, k, sensor, start, end, p, x))
      && (i >= 0 ==> LatestInBucket(t, rows[i].Key(), sensor, start, end, p, x) && rows[i].value == t[rows[i].Key()])
  {
    var s := SensorRange(t, sensor, start, end);
    var i := LastIndex(rows, p, x);
    if i >= 0 {
      assert rows[i] in rows;
      assert InBucket(t, rows[i].Key(), sensor, start, end, p, x);
    }
    forall k | InBucket(t, k, sensor, start, end, p, x)
      ensures i >= 0 && k.0 <= rows[i].at
    {
      assert k in s.Keys;
      var j :| 0 <= j < |rows| && rows[j] == Row(k.0, k.1, s[k]);
      assert FloorTo(rows[j].at, p) == x;
    }
  }

  /** The entries after writing each row's value to the entry of its bucket,
      in the order of `rows`. */
  function Written(values: map<(string, int), Option<real>>, rows: seq<Row<Option<real>>>, sensor: string, p: int)
    : map<(string, int), Option<real>>
    requires p > 0
  {
    if rows == [] then values
    else
      var last := rows[|rows| - 1];
      Written(values, rows[..|rows| - 1], sensor, p)[(sensor, FloorTo(last.at, p)) := last.value]
  }

  /** After the writes every bucket keeps the value of its last row, and
      every other entry is as before. */
  lemma {:induction false} WrittenKeepsLast(values: map<(string, int), Option<real>>, rows: seq<Row<Option<real>>>, sensor: string, p: int)
    requires p > 0
    ensures var w := Written(values, rows, sensor, p);
      forall x :: LastIndex(rows, p, x) >= 0 ==>
        (sensor, x) in w && w[(sensor, x)] == rows[LastIndex(rows, p, x)].value
    ensures var w := Written(values, rows, sensor, p);
      forall x :: LastIndex(rows, p, x) == -1 ==>
        ((sensor, x) in w <==> (sensor, x) in values) && Get(w, (sensor, x)) == Get(values, (sensor, x))
    ensures var w := Written(values, rows, sensor, p);
      forall key: (string, int) :: key.0 != sensor ==>
        (key in w <==> key in values) && Get(w, key) == Get(values, key)
  {
    if rows != [] {
      var n := |rows| - 1;
      WrittenKeepsLast(values, rows[..n], sensor, p);
      LastIndexStep(rows, n, p);
      assert rows[..n + 1] == rows;
    }
  }

  /** The inner loop of the matrix builders: walks one sensor's rows in
      order and writes each value to the entry of its bucket. */
  method WriteBuckets(values: map<(string, int), Option<real>>, rows: seq<Row<Option<real>>>, sensor: string, p: int)
    returns (values': map<(string, int), Option<real>>)
    requires p > 0
    ensures values' == Written(values, rows, sensor, p)
  {
    values' := values;
    var j := 0;
    while j < |rows|
      invariant 0 <= j <= |rows|
      invariant values' == Written(values, rows[..j], sensor, p)
    {
      assert rows[..j + 1][..j] == rows[..j];
      values' := values'[(sensor, FloorTo(rows[j].at, p)) := rows[j].value];
      j := j + 1;
    }
    assert rows[..j] == rows;
  }

  /** The inner loop for one sensor of the matrix builders: its readings in
      `[start, end)`, in ascending time, each written to the entry of its
      bucket, so that the latest reading of every bucket stays. */
  method CollectSensorValues(values: map<(string, int), Option<real>>, t: Readings,
                             sensor: string, start: int, end: int, p: int)
    returns (values': map<(string, int), Option<real>>)
    requires p > 0
    requires forall key :: key in values && key.0 == sensor ==>
      exists k :: InBucket(t, k, sensor, start, end, p, key.1)
    ensures forall x :: IsCell(t, sensor, start, end, p, x, Get(values', (sensor, x)))
    ensures forall key: (string, int) :: key.0 != sensor ==> Get(values', key) == Get(values, key)
    ensures forall key :: key in values' ==>
      key in values || exists k :: InBucket(t, k, key.0, start, end, p, key.1)
  {
    var rows := OrderByTime(SensorRange(t, sensor, start, end));
    values' := WriteBuckets(values, rows, sensor, p);
    WrittenKeepsLast(values, rows, sensor, p);
    CollectedCells(values, values', rows, t, sensor, start, end, p);
  }

  /** After the loop over all of the sensor's rows, every bucket holds the
      sensor's cell. */
  lemma CollectedCells(values: map<(string, int), Option<real>>, values': map<(string, int), Option<real>>,
                       rows: seq<Row<Option<real>>>, t: Readings, sensor: string, start: int, end: int, p: int)
    requires p > 0
    requires TimeOrdered(rows)
    requires var s := SensorRange(t, sensor, start, end); Lists(rows, s, s.Keys)
    requires forall key :: key in values && key.0 == sensor ==>
      exists k :: InBucket(t, k, sensor, start, end, p, key.1)
    requires forall x :: LastIndex(rows, p, x) >= 0 ==>
      (sensor, x) in values' && values'[(sensor, x)] == rows[LastIndex(rows, p, x)].value
    requires forall x :: LastIndex(rows, p, x) == -1 ==>
      ((sensor, x) in values' <==> (sensor, x) in values) && Get(values', (sensor, x)) == Get(values, (sensor, x))
    requires forall key: (string, int) :: key.0 != sensor ==> (key in values' <==> key in values)
    ensures forall x :: IsCell(t, sensor, start, end, p, x, Get(values', (sensor, x)))
    ensures forall key :: key in values' ==>
      key in values || exists k :: InBucket(t, k, key.0, start, end, p, key.1)
  {
    forall x
      ensures IsCell(t, sensor, start, end, p, x, Get(values', (sensor, x)))
      ensures (sensor, x) in values' ==> (sensor, x) in values || exists k :: InBucket(t, k, sensor, start, end, p, x)
    {
      LastIndexIsLatest(rows, t, sensor, start, end, p, x);
    }
  }

  /** The x-axis query: the bucket of every reading in `[start, end)`,
      sorted and de-duplicated (`sorted(list(set(...)))`). */
  method BucketAxis(t: Readings, start: int, end: int, p: int) returns (xs: seq<int>)
    requires p > 0
    ensures IsAxis(xs, t, start, end, p)
  {
    var window := TimeRange(t, start, end);
    var readings := OrderByTime(window);
    var buckets: seq<int> := [];
    var i := 0;
    while i < |readings|
      invariant 0 <= i <= |readings|
      invariant |buckets| == i
      invariant forall j :: 0 <= j < i ==> buckets[j] == FloorTo(readings[j].at, p)
    {
      buckets := buckets + [FloorTo(readings[i].at, p)];
      i := i + 1;
    }
    xs := SortedDistinct(buckets);
    forall x
      ensures x in xs <==> exists k :: k in t && start <= k.0 < end && FloorTo(k.0, p) == x
    {
      if x in xs {
        var j :| 0 <= j < |buckets| && buckets[j] == x;
        assert readings[j] in readings;
      }
      if exists k :: k in t && start <= k.0 < end && FloorTo(k.0, p) == x {
        var k :| k in t && start <= k.0 < end && FloorTo(k.0, p) == x;
        assert k in window.Keys;
        var j :| 0 <= j < |readings| && readings[j] == Row(k.0, k.1, window[k]);
        assert buckets[j] == x;
      }
    }
  }

  /** One sensor's row: the value of each axis bucket, or `None`. */
  method AlignRow(values: map<(string, int), Option<real>>, sensor: string, xs: seq<int>)
    returns (row: seq<Option<real>>)
    ensures |row| == |xs|
    ensures forall j :: 0 <= j < |xs| ==> row[j] == Get(values, (sensor, xs[j]))
  {
    row := [];
    var j := 0;
    while j < |xs|
      invariant 0 <= j <= |xs|
      invariant |row| == j
      invariant forall q :: 0 <= q < j ==> row[q] == Get(values, (sensor, xs[q]))
    {
      row := row + [Get(values, (sensor, xs[j]))];
      j := j + 1;
    }
  }

  /** The matrix both `result_matrix_from_measurements` and
      `result_matrix_from_hourly_summaries` build: the bucket axis, then one
      row per sensor holding, for each bucket, the value of that sensor's
      latest reading in it, or `None`. */
  method AlignedMatrix(t: Readings, sensors: seq<string>, start: int, end: int, p: int) returns (m: Matrix)
    requires p > 0
    ensures IsAxis(m.xs, t, start, end, p)
    ensures |m.rows| == |sensors|
    ensures forall i :: 0 <= i < |sensors| ==> |m.rows[i]| == |m.xs|
    ensures forall i, j :: 0 <= i < |sensors| && 0 <= j < |m.xs| ==>
      IsCell(t, sensors[i], start, end, p, m.xs[j], m.rows[i][j])
  {
    var xs := BucketAxis(t, start, end, p);
    var values: map<(string, int), Option<real>> := map[];
    var i := 0;
    while i < |sensors|
      invariant 0 <= i <= |sensors|
      invariant forall q, x :: 0 <= q < i ==> IsCell(t, sensors[q], start, end, p, x, Get(values, (sensors[q], x)))
      invariant forall key :: key in values ==> exists k :: InBucket(t, k, key.0, start, end, p, key.1)
    {
      values := CollectSensorValues(values, t, sensors[i], start, end, p);
      i := i + 1;
    }
    var rows: seq<seq<Option<real>>> := [];
    i := 0;
    while i < |sensors|
      invariant 0 <= i <= |sensors|
      invariant |rows| == i
      invariant forall q :: 0 <= q < i ==> |rows[q]| == |xs|
      invariant forall q, j :: 0 <= q < i && 0 <= j < |xs| ==> rows[q][j] == Get(values, (sensors[q], xs[j]))
    {
      var row := AlignRow(values, sensors[i], xs);
      rows := rows + [row];
      i := i + 1;
    }
    m := Matrix(xs, rows);
  }

  /** `result_matrix_from_measurements`: minute buckets over the `median`
      column of a measurement table. */
  method ResultMatrixFromMeasurements(t: Readings, sensors: seq<string>, start: int, end: int) returns (m: Matrix)
    ensures IsAxis(m.xs, t, start, end, Minute)
    ensures |m.rows| == |sensors|
    ensures forall i :: 0 <= i < |sensors| ==> |m.rows[i]| == |m.xs|
    ensures forall i, j :: 0 <= i < |sensors| && 0 <= j < |m.xs| ==>
      IsCell(t, sensors[i], start, end, Minute, m.xs[j], m.rows[i][j])
  {
    m := AlignedMatrix(t, sensors, start, end, Minute);
  }

  /** A cell is determined by the table: the latest reading of a bucket is
      unique, because one sensor has one reading per time. */
  lemma CellUnique(t: Readings, sensor: string, start: int, end: int, p: int, x: int, c: Option<real>, c': Option<real>)
    requires p > 0
    requires IsCell(t, sensor, start, end, p, x, c) && IsCell(t, sensor, start, end, p, x, c')
    ensures c == c'
  {
    if exists k :: InBucket(t, k, sensor, start, end, p, x) {
      var k :| LatestInBucket(t, k, sensor, start, end, p, x) && c == t[k];
      var k' :| LatestInBucket(t, k', sensor, start, end, p, x) && c' == t[k'];
      assert k.0 == k'.0 && k.1 == k'.1;
    }
  }

  /** When no stored value is NULL, a cell is `None` exactly when the sensor
      has no reading in that bucket. */
  lemma CellGapIffNoReading(t: Readings, sensor: string, start: int, end: int, p: int, x: int, c: Option<real>)
    requires p > 0
    requires forall k :: k in t ==> t[k].Some?
    requires IsCell(t, sensor, start, end, p, x, c)
    ensures c == None <==> forall k :: !InBucket(t, k, sensor, start, end, p, x)
  {
  }

  /** With width-1 buckets a cell is the row stored at exactly that time. */
  lemma ExactCell(t: Readings, sensor: string, start: int, end: int, x: int, c: Option<real>)
    requires start <= x < end
    requires IsCell(t, sensor, start, end, 1, x, c)
    ensures c == if (x, sensor) in t then t[(x, sensor)] else None
  {
    if (x, sensor) in t {
      assert InBucket(t, (x, sensor), sensor, start, end, 1, x);
      var k :| LatestInBucket(t, k, sensor, start, end, 1, x) && c == t[k];
      assert k.0 == x && k.1 == sensor;
    }
  }

  /** `result_matrix_from_hourly_summaries`: the same alignment over the
      `median` of an hourly summary table, whose `period_start_at` values are
      used as they are: the axis holds the distinct period starts in
      `[start, end)`, and a cell is the sensor's value at that start. */
  method ResultMatrixFromHourlySummaries(t: Readings, sensors: seq<string>, start: int, end: int) returns (m: Matrix)
    ensures StrictlyIncreasing(m.xs)
    ensures forall x :: x in m.xs <==> exists k :: k in t && start <= k.0 < end && k.0 == x
    ensures |m.rows| == |sensors|
    ensures forall i :: 0 <= i < |sensors| ==> |m.rows[i]| == |m.xs|
    ensures forall i, j :: 0 <= i < |sensors| && 0 <= j < |m.xs| ==>
      m.rows[i][j] == if (m.xs[j], sensors[i]) in t then t[(m.xs[j], sensors[i])] else None
  {
    m := AlignedMatrix(t, sensors, start, end, 1);
    forall i, j | 0 <= i < |sensors| && 0 <= j < |m.xs|
      ensures m.rows[i][j] == if (m.xs[j], sensors[i]) in t then t[(m.xs[j], sensors[i])] else None
    {
      assert m.xs[j] in m.xs;
      ExactCell(t, sensors[i], start, end, m.xs[j], m.rows[i][j]);
    }
  }

  // ---------------------------------------------------------------------------
  // `result_matrix_from_summaries`

  /** The x value of a summary: the end of its bucket, but never later than `now`. */
  function BucketEnd(startsAt: int, window: int, now: int): (x: int)
    ensures x <= now && x <= startsAt + window
    ensures x == now || x == startsAt + window
  {
    if now < startsAt + window then now else startsAt + window
  }

  /** Column `c` (0 min, 1 max, 2 mean) of `sensor` at `startsAt`, as the
      LEFT JOIN gives it: NULL when the sensor has no row there. */
  function SummaryCell(t: map<Key, Summary>, startsAt: int, sensor: string, c: int): (v: Option<real>)
    requires 0 <= c < 3
    ensures v.Some? <==> (startsAt, sensor) in t
  {
    if (startsAt, sensor) !in t then None
    else
      var s := t[(startsAt, sensor)];
      Some(if c == 0 then s.minValue else if c == 1 then s.maxValue else s.meanValue)
  }

  /** Appends one query row's joined columns: three per sensor. */
  method AppendSummaryCells(cols: seq<seq<Option<real>>>, t: map<Key, Summary>, startsAt: int, sensors: seq<string>)
    returns (cols': seq<seq<Option<real>>>)
    requires |cols| == 3 * |sensors|
    ensures |cols'| == |cols|
    ensures forall r :: 0 <= r < |cols| ==> cols'[r] == cols[r] + [SummaryCell(t, startsAt, sensors[r / 3], r % 3)]
  {
    cols' := cols;
    var r := 0;
    while r < |cols|
      invariant 0 <= r <= |cols| && |cols'| == |cols|
      invariant forall q :: 0 <= q < r ==> cols'[q] == cols[q] + [SummaryCell(t, startsAt, sensors[q / 3], q % 3)]
      invariant forall q :: r <= q < |cols| ==> cols'[q] == cols[q]
    {
      cols' := cols'[r := cols'[r] + [SummaryCell(t, startsAt, sensors[r / 3], r % 3)]];
      r := r + 1;
    }
  }

  /** `result_matrix_from_summaries`: one column per summary row with
      `starts_at` in `[start, end)` (every sensor's row, so a start shared by
      several sensors appears once per row), its x the clamped bucket end,
      and for each sensor the min, max and mean at that start. */
  method ResultMatrixFromSummaries(t: map<Key, Summary>, sensors: seq<string>, start: int, end: int, window: int, now: int)
    returns (m: Matrix)
    ensures |m.rows| == 3 * |sensors|
    ensures |m.xs| == |TimeRange(t, start, end)|
    ensures forall r :: 0 <= r < |m.rows| ==> |m.rows[r]| == |m.xs|
    ensures exists order: seq<Row<Summary>> ::
      var range := TimeRange(t, start, end);
      && Lists(order, range, range.Keys) && |order| == |m.xs|
      && (forall j :: 0 <= j < |order| ==> m.xs[j] == BucketEnd(order[j].at, window, now))
      && (forall r, j :: 0 <= r < |m.rows| && 0 <= j < |order| ==>
            m.rows[r][j] == SummaryCell(t, order[j].at, sensors[r / 3], r % 3))
  {
    var range := TimeRange(t, start, end);
    var order := OrderByTime(range);
    var xs: seq<int> := [];
    var cols: seq<seq<Option<real>>> := seq(3 * |sensors|, _ => []);
    var j := 0;
    while j < |order|
      invariant 0 <= j <= |order|
      invariant AxisUpTo(xs, order, window, now, j)
      invariant CellsUpTo(cols, t, order, sensors, j)
    {
      var x := order[j].at + window;
      if now < x {
        x := now;
      }
      AppendedAxis(xs, order, window, now, j, x);
      xs := xs + [x];
      var cols' := AppendSummaryCells(cols, t, order[j].at, sensors);
      AppendedCells(cols, cols', t, order, sensors, j);
      cols := cols';
      j := j + 1;
    }
    m := Matrix(xs, cols);
    assert Lists(order, range, range.Keys) && |order| == |m.xs|;
  }

  /** The first `j` columns of the three rows per sensor hold the joined
      summary columns of the first `j` rows of `order`. */
  ghost predicate CellsUpTo(cols: seq<seq<Option<real>>>, t: map<Key, Summary>, order: seq<Row<Summary>>,
                            sensors: seq<string>, j: int)
  {
    && |cols| == 3 * |sensors| && 0 <= j <= |order|
    && (forall r :: 0 <= r < |cols| ==> |cols[r]| == j)
    && (forall r, q :: 0 <= r < |cols| && 0 <= q < j ==>
          cols[r][q] == SummaryCell(t, order[q].at, sensors[r / 3], r % 3))
  }

  /** The first `j` x values are the clamped bucket ends of the first `j`
      rows of `order`. */
  ghost predicate AxisUpTo(xs: seq<int>, order: seq<Row<Summary>>, window: int, now: int, j: int) {
    && 0 <= j <= |order| && |xs| == j
    && forall q :: 0 <= q < j ==> xs[q] == BucketEnd(order[q].at, window, now)
  }

  lemma AppendedAxis(xs: seq<int>, order: seq<Row<Summary>>, window: int, now: int, j: int, x: int)
    requires AxisUpTo(xs, order, window, now, j) && j < |order|
    requires x == if now < order[j].at + window then now else order[j].at + window
    ensures AxisUpTo(xs + [x], order, window, now, j + 1)
  {
  }

  lemma AppendedCells(cols: seq<seq<Option<real>>>, cols': seq<seq<Option<real>>>, t: map<Key, Summary>,
                      order: seq<Row<Summary>>, sensors: seq<string>, j: int)
    requires CellsUpTo(cols, t, order, sensors, j) && j < |order|
    requires |cols'| == |cols|
    requires forall r :: 0 <= r < |cols| ==> cols'[r] == cols[r] + [SummaryCell(t, order[j].at, sensors[r / 3], r % 3)]
    ensures CellsUpTo(cols', t, order, sensors, j + 1)
  {
    forall r, q | 0 <= r < |cols'| && 0 <= q < j + 1
      ensures cols'[r][q] == SummaryCell(t, order[q].at, sensors[r / 3], r % 3)
    {
      if q < j {
        assert cols'[r][q] == cols[r][q];
      }
    }
  }
}
