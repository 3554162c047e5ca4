/**
 * Video id extraction and the non-network steps of the metadata lookup.
 *
 * The extractor is a regular expression followed by a length check. The
 * expression reads any prefix, then a marker (`youtu.be/` with any character
 * in place of the dot, `v/`, `u/` followed by one word character and `/`,
 * `embed/`, `watch?v=`, `&v=` or `live/`), then as group 2 a run of
 * characters other than `#`, `&` and `?`, then anything. The prefix is read
 * greedily, so the marker used is the one that starts furthest right, and the
 * id is the longest run after it without `#`, `&` or `?`. URLs are taken to
 * hold no line terminators. A `char` here is a Unicode scalar value, where the
 * source counts UTF-16 code units.
 */
module YouTube {
  import opened Wrappers

  /** The only id length the extractor accepts. */
  const IdLength: nat := 11

  /** The page URL the lookup is made for, before the id. */
  const WatchUrlPrefix: string := "https://www.youtube.com/watch?v="

  /** `\w` */
  predicate IsWordChar(c: char) {
    'a' <= c <= 'z' || 'A' <= c <= 'Z' || '0' <= c <= '9' || c == '_'
  }

  /** The characters `[^#&?]` excludes. */
  predicate IsIdStop(c: char) {
    c == '#' || c == '&' || c == '?'
  }

  /** One of the alternatives of the first group (`.` in `youtu.be` matches any character). */
  predicate IsMarker(m: string) {
    || (|m| == 9 && m[..5] == "youtu" && m[6..] == "be/")
    || m == "v/"
    || (|m| == 4 && m[..2] == "u/" && IsWordChar(m[2]) && m[3] == '/')
    || m == "embed/"
    || m == "watch?v="
    || m == "&v="
    || m == "live/"
  }

  /** The alternatives begin with distinct characters, each fixing the marker's length. */
  function HeadLength(c: char): nat {
    match c
    case 'y' => 9
    case 'v' => 2
    case 'u' => 4
    case 'e' => 6
    case 'w' => 8
    case '&' => 3
    case 'l' => 5
    case _ => 0
  }

  lemma MarkerHead(m: string)
    ensures IsMarker(m) ==> |m| > 0 && |m| == HeadLength(m[0])
    ensures IsMarker(m) && m[0] == 'v' ==> m == "v/"
  {
  }

  /** A marker of length `m` starts at index `q` of `url`. */
  predicate MarkerAt(url: string, q: nat, m: nat) {
    q + m <= |url| && IsMarker(url[q..q + m])
  }

  /** The length of the marker starting at `p`, or 0 when none does. */
  function MarkerLengthAt(url: string, p: nat): (n: nat)
    requires p <= |url|
    ensures n > 0 ==> MarkerAt(url, p, n)
    ensures forall m: nat :: MarkerAt(url, p, m) ==> m > 0 && m == n
  {
    if p == |url| then
      assert forall m: nat :: !MarkerAt(url, p, m) by {
        forall m: nat | MarkerAt(url, p, m) ensures false {
          MarkerHead(url[p..p + m]);
        }
      }
      0
    else
      var h := HeadLength(url[p]);
      assert forall m: nat :: MarkerAt(url, p, m) ==> m > 0 && m == h by {
        forall m: nat | MarkerAt(url, p, m) ensures m > 0 && m == h {
          MarkerHead(url[p..p + m]);
        }
      }
      if 0 < h && p + h <= |url| && IsMarker(url[p..p + h]) then h else 0
  }

  /** The rightmost position below `k` where a marker starts: where the greedy `.*` stops. */
  function LastMarkerBefore(url: string, k: nat): (r: Option<nat>)
    requires k <= |url|
    ensures r.Some? ==> r.value < k && MarkerLengthAt(url, r.value) > 0
    ensures r.Some? ==> forall q :: r.value < q < k ==> MarkerLengthAt(url, q) == 0
    ensures r.None? ==> forall q :: 0 <= q < k ==> MarkerLengthAt(url, q) == 0
  {
    if k == 0 then None
    else if MarkerLengthAt(url, k - 1) > 0 then Some(k - 1)
    else LastMarkerBefore(url, k - 1)
  }

  /** The end of the longest run from `i` without `#`, `&` or `?`: where `[^#&?]*` stops. */
  function RunEnd(url: string, i: nat): (j: nat)
    requires i <= |url|
    ensures i <= j <= |url|
    ensures forall k :: i <= k < j ==> !IsIdStop(url[k])
    ensures j < |url| ==> IsIdStop(url[j])
    decreases |url| - i
  {
    if i == |url| || IsIdStop(url[i]) then i else RunEnd(url, i + 1)
  }

  /** `getYouTubeVideoId(url)` */
  function GetYouTubeVideoId(url: string): (r: Option<string>)
    ensures r.Some? ==> |r.value| == IdLength
    ensures r.Some? ==> forall k :: 0 <= k < |r.value| ==> !IsIdStop(r.value[k])
  {
    match LastMarkerBefore(url, |url|)
    case None => None
    case Some(p) =>
      var start := p + MarkerLengthAt(url, p);
      var end := RunEnd(url, start);
      if end - start == IdLength then Some(url[start..end]) else None
  }

  /** A returned id sits in the URL right after a marker. */
  lemma IdFollowsMarker(url: string)
    ensures GetYouTubeVideoId(url).Some? ==>
      exists p: nat, n: nat :: MarkerAt(url, p, n) && p + n + IdLength <= |url| &&
        url[p + n..p + n + IdLength] == GetYouTubeVideoId(url).value
  {
    if GetYouTubeVideoId(url).Some? {
      var p := LastMarkerBefore(url, |url|).value;
      var n := MarkerLengthAt(url, p);
      assert MarkerAt(url, p, n);
    }
  }

  /**
   * The regular expression matches `url` with group 1 = url[p..p+n] and
   * group 2 = url[p+n..e]: a marker at p and none further right (the greedy
   * `.*`), and the longest stop-free run after it (the greedy `[^#&?]*`).
   */
  ghost predicate RegexMatch(url: string, p: nat, n: nat, e: nat) {
    && p + n <= e <= |url|
    && MarkerAt(url, p, n)
    && (forall q: nat, m: nat :: p < q ==> !MarkerAt(url, q, m))
    && (forall k :: p + n <= k < e ==> !IsIdStop(url[k]))
    && (e < |url| ==> IsIdStop(url[e]))
  }

  /**
   * The extractor agrees with the regular expression: no match gives null, and
   * a match gives group 2 exactly when it is 11 characters long. In particular
   * an earlier marker is never used when the rightmost one's run has the wrong length.
   */
  lemma {:induction false} VideoIdFollowsRegex(url: string)
    ensures (forall p: nat, n: nat, e: nat :: !RegexMatch(url, p, n, e)) ==> GetYouTubeVideoId(url) == None
    ensures forall p: nat, n: nat, e: nat :: RegexMatch(url, p, n, e) ==>
              GetYouTubeVideoId(url) == (if e - (p + n) == IdLength then Some(url[p + n..e]) else None)
  {
    match LastMarkerBefore(url, |url|)
    case None =>
      forall p: nat, n: nat, e: nat ensures !RegexMatch(url, p, n, e) {
        if p + n <= |url| {
          MarkerHead(url[p..p + n]);
          assert p < |url| ==> MarkerLengthAt(url, p) == 0;
        }
      }
    case Some(p0) =>
      var n0 := MarkerLengthAt(url, p0);
      var e0 := RunEnd(url, p0 + n0);
      forall q: nat, m: nat | p0 < q ensures !MarkerAt(url, q, m) {
        if q <= |url| {
          assert MarkerLengthAt(url, q) == 0;
        }
      }
      assert RegexMatch(url, p0, n0, e0);
      forall p: nat, n: nat, e: nat | RegexMatch(url, p, n, e) ensures p == p0 && n == n0 && e == e0 {
        assert MarkerAt(url, p0, n0);
        MarkerHead(url[p..p + n]);
        ghost var np := MarkerLengthAt(url, p);
        assert n == np;
      }
  }

  /** What oEmbed gives back for the fetched fields; a field that is absent is "". */
  datatype Details = Details(title: string, authorName: string, thumbnailUrl: string)

  /**
   * What the metadata service answers to one lookup: either the request or
   * the JSON parse fails, or a response arrives. A JSON field that is absent
   * or falsy is "".
   */
  datatype Reply =
    | Unanswered(message: string)
    | Answered(ok: bool, status: int, error: string, title: string, authorName: string, thumbnailUrl: string)

  /** The ways `fetchVideoDetails` throws. */
  datatype FetchError =
    | InvalidUrl                     // 'Invalid YouTube URL'
    | BadStatus(status: int)         // the response is not ok
    | ServiceError(message: string)  // the service reports `error`
    | IncompleteDetails              // title, author or thumbnail missing
    | NetworkError(message: string)  // the request or the JSON parse failed

  /** The page URL the lookup is made for: the watch-page prefix followed by the extracted id. */
  function LookupUrl(url: string): (r: Option<string>)
    ensures r.Some? <==> GetYouTubeVideoId(url).Some?
    ensures r.Some? ==> |r.value| == |WatchUrlPrefix| + IdLength && r.value[..|WatchUrlPrefix|] == WatchUrlPrefix
    ensures r.Some? ==> r.value[|WatchUrlPrefix|..] == GetYouTubeVideoId(url).value
  {
    match GetYouTubeVideoId(url)
    case None => None
    case Some(id) => Some(WatchUrlPrefix + id)
  }

  /** No marker starts inside a stretch of the URL that lies right of every marker. */
  lemma StretchHoldsNoMarker(url: string, p0: nat, s: nat, e: nat, q: nat, m: nat)
    requires p0 < s <= e <= |url|
    requires forall k :: p0 < k < |url| ==> MarkerLengthAt(url, k) == 0
    ensures !MarkerAt(url[s..e], q, m)
  {
    if q + m <= e - s {
      var inner, outer := url[s..e][q..q + m], url[s + q..s + q + m];
      assert forall k :: 0 <= k < m ==> inner[k] == outer[k];
      assert inner == outer;
      MarkerHead(url[s + q..s + q + m]);
      if m > 0 {
        assert MarkerLengthAt(url, s + q) == 0;
      }
    }
  }

  /** No marker starts inside an extracted id: it would lie right of the marker the id follows. */
  lemma IdHoldsNoMarker(url: string)
    ensures GetYouTubeVideoId(url).Some? ==> forall q: nat, m: nat :: !MarkerAt(GetYouTubeVideoId(url).value, q, m)
  {
    if GetYouTubeVideoId(url).Some? {
      var p0 := LastMarkerBefore(url, |url|).value;
      var s := p0 + MarkerLengthAt(url, p0);
      var e := RunEnd(url, s);
      assert GetYouTubeVideoId(url).value == url[s..e];
      forall q: nat, m: nat ensures !MarkerAt(url[s..e], q, m) {
        StretchHoldsNoMarker(url, p0, s, e, q, m);
      }
    }
  }

  /** Right of the `watch?v=` marker, the lookup URL's prefix holds no other marker. */
  lemma PrefixTailHoldsNoMarker(c: string, q: nat, m: nat)
    requires |WatchUrlPrefix| <= |c| && c[..|WatchUrlPrefix|] == WatchUrlPrefix
    requires 24 < q < |WatchUrlPrefix|
    ensures !MarkerAt(c, q, m)
  {
    assert WatchUrlPrefix[24..] == "watch?v=";
    assert c[q] == WatchUrlPrefix[q];
    assert c[31] == '=';
    if q + m <= |c| {
      MarkerHead(c[q..q + m]);
    }
  }

  /** After the lookup prefix, a well-formed id is what the regular expression captures. */
  lemma WatchUrlMatches(id: string)
    requires |id| == IdLength
    requires forall k :: 0 <= k < |id| ==> !IsIdStop(id[k])
    requires forall q: nat, m: nat :: !MarkerAt(id, q, m)
    ensures RegexMatch(WatchUrlPrefix + id, 24, 8, |WatchUrlPrefix| + |id|)
  {
    var c := WatchUrlPrefix + id;
    assert c[..|WatchUrlPrefix|] == WatchUrlPrefix;
    assert MarkerAt(c, 24, 8) by {
      assert WatchUrlPrefix[24..] == "watch?v=";
      assert c[24..32] == WatchUrlPrefix[24..];
    }
    forall q: nat, m: nat | 24 < q ensures !MarkerAt(c, q, m) {
      if q < |WatchUrlPrefix| {
        PrefixTailHoldsNoMarker(c, q, m);
      } else if q + m <= |c| {
        assert c[q..q + m] == id[q - 32..q - 32 + m];
        assert !MarkerAt(id, q - 32, m);
      }
    }
    assert forall k :: 32 <= k < |c| ==> c[k] == id[k - 32];
  }

  /** A well-formed id placed after the lookup prefix is extracted again. */
  lemma WatchUrlGivesId(id: string)
    requires |id| == IdLength
    requires forall k :: 0 <= k < |id| ==> !IsIdStop(id[k])
    requires forall q: nat, m: nat :: !MarkerAt(id, q, m)
    ensures GetYouTubeVideoId(WatchUrlPrefix + id) == Some(id)
  {
    var c := WatchUrlPrefix + id;
    WatchUrlMatches(id);
    VideoIdFollowsRegex(c);
    assert c[32..|c|] == id;
  }

  /**
   * The lookup URL names the same video: extracting the id from it gives back
   * the id extracted from the URL the user typed.
   */
  lemma LookupUrlKeepsId(url: string)
    ensures LookupUrl(url).Some? ==> GetYouTubeVideoId(LookupUrl(url).value) == GetYouTubeVideoId(url)
  {
    if GetYouTubeVideoId(url).Some? {
      IdHoldsNoMarker(url);
      WatchUrlGivesId(GetYouTubeVideoId(url).value);
    }
  }

  /** The checks made on the service's answer, in the order the source makes them. */
  function CheckReply(reply: Reply): (r: Result<Details, FetchError>)
    ensures r.Success? <==>
      reply.Answered? && reply.ok && reply.error == ""
      && reply.title != "" && reply.authorName != "" && reply.thumbnailUrl != ""
    ensures r.Success? ==> r.value == Details(reply.title, reply.authorName, reply.thumbnailUrl)
  {
    match reply
    case Unanswered(message) => Failure(NetworkError(message))
    case Answered(ok, status, error, title, authorName, thumbnailUrl) =>
      if !ok then Failure(BadStatus(status))
      else if error != "" then Failure(ServiceError(error))
      else if title == "" || authorName == "" || thumbnailUrl == "" then Failure(IncompleteDetails)
      else Success(Details(title, authorName, thumbnailUrl))
  }

  /**
   * `fetchVideoDetails(url)`, with the service modelled as `net`, the answer it
   * gives to each lookup URL.
   */
  function FetchVideoDetails(url: string, net: string -> Reply): (r: Result<Details, FetchError>)
    ensures GetYouTubeVideoId(url).None? ==> r == Failure(InvalidUrl)
    ensures LookupUrl(url).Some? ==> r == CheckReply(net(LookupUrl(url).value))
    ensures r.Success? ==>
      GetYouTubeVideoId(url).Some? && r.value.title != "" && r.value.authorName != "" && r.value.thumbnailUrl != ""
  {
    match LookupUrl(url)
    case None => Failure(InvalidUrl)
    case Some(lookup) => CheckReply(net(lookup))
  }

  /**
   * The only request made is for the lookup URL: two services that agree on
   * it give the same outcome, and with no id no request is made at all.
   */
  lemma FetchAsksOnlyForLookupUrl(url: string, net1: string -> Reply, net2: string -> Reply)
    requires LookupUrl(url).Some? ==> net1(LookupUrl(url).value) == net2(LookupUrl(url).value)
    ensures FetchVideoDetails(url, net1) == FetchVideoDetails(url, net2)
  {
  }
}
