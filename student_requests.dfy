/**
 * The student's block list (src/Student/StudentRequests.jsx): the page
 * fetches `/api/requests/block/${residence}/${block}` and joins the room for
 * the same pair, both taken from the stored login result. The server's
 * `/api/requests/block/:residence/:block` route reads the pair back out of
 * the path.
 */
module StudentRequests {
  import opened Wrappers

  const BlockRoutePrefix: string := "/api/requests/block/"

  /** The path `fetchRequests` requests. */
  function FetchPath(residence: string, block: string): (p: string)
    ensures |p| == |BlockRoutePrefix| + |residence| + 1 + |block|
    ensures p[..|BlockRoutePrefix|] == BlockRoutePrefix
    ensures p[|BlockRoutePrefix|..] == residence + "/" + block
  {
    BlockRoutePrefix + residence + "/" + block
  }

  /** The payload of `join-student-room`. */
  datatype JoinRequest = JoinRequest(residence: string, block: string)

  function JoinPayload(residence: string, block: string): JoinRequest {
    JoinRequest(residence, block)
  }

  /** A string with no `/`. */
  predicate NoSlash(s: string) {
    forall k :: 0 <= k < |s| ==> s[k] != '/'
  }

  /** The index of the first `/` in `s`, or `|s|`. */
  function SlashIndex(s: string): (i: nat)
    ensures i <= |s| && NoSlash(s[..i])
    ensures i < |s| ==> s[i] == '/'
  {
    if s == [] || s[0] == '/' then 0
    else
      var i := 1 + SlashIndex(s[1..]);
      assert s[..i] == [s[0]] + s[1..][..i - 1];
      i
  }

  /**
   * The two parameters out of what follows the route's prefix: two
   * non-empty segments without `/`, and an optional trailing `/` (the
   * router is not strict).
   */
  function ParsePair(rest: string): (r: Option<JoinRequest>)
    ensures r.Some? ==> rest == r.value.residence + "/" + r.value.block
                        || rest == r.value.residence + "/" + r.value.block + "/"
    ensures r.Some? ==> r.value.residence != [] && r.value.block != []
                        && NoSlash(r.value.residence) && NoSlash(r.value.block)
  {
    var i := SlashIndex(rest);
    if i == 0 || i == |rest| then None
    else
      var tail := rest[i + 1..];
      var j := SlashIndex(tail);
      if j == 0 || !(j == |tail| || tail[j..] == "/") then None
      else
        assert rest == rest[..i] + "/" + tail;
        assert tail == tail[..j] + tail[j..];
        Some(JoinRequest(rest[..i], tail[..j]))
  }

  /** Express's matcher for `/api/requests/block/:residence/:block`. */
  function RouteBlockPath(path: string): (r: Option<JoinRequest>)
    ensures r.Some? ==> path == FetchPath(r.value.residence, r.value.block)
                        || path == FetchPath(r.value.residence, r.value.block) + "/"
    ensures r.Some? ==> r.value.residence != [] && r.value.block != []
                        && NoSlash(r.value.residence) && NoSlash(r.value.block)
  {
    var n := |BlockRoutePrefix|;
    if |path| < n || path[..n] != BlockRoutePrefix then None
    else
      var r := ParsePair(path[n..]);
      assert path == BlockRoutePrefix + path[n..];
      r
  }

  /**
   * A segment the browser and Express carry through unchanged: non-empty,
   * not a dot segment, and free of the characters that end a segment or a
   * path or start a percent escape.
   */
  predicate SafeSegment(s: string) {
    && s != [] && s != "." && s != ".."
    && forall k :: 0 <= k < |s| ==> s[k] != '/' && s[k] != '\\' && s[k] != '?' && s[k] != '#' && s[k] != '%'
  }

  /** Two non-empty segments without `/` are read back from their joined form. */
  lemma ParsePairRoundTrip(residence: string, block: string)
    requires residence != [] && block != [] && NoSlash(residence) && NoSlash(block)
    ensures ParsePair(residence + "/" + block) == Some(JoinRequest(residence, block))
  {
    var rest := residence + "/" + block;
    SlashAt(residence, block);
    assert rest[..|residence|] == residence;
    assert rest[|residence| + 1..] == block;
    SlashAt(block, []);
    assert block[..|block|] == block;
  }

  /** For safe segments the server reads back exactly the pair the page joined the room with. */
  lemma FetchPathRoundTrip(residence: string, block: string)
    requires SafeSegment(residence) && SafeSegment(block)
    ensures RouteBlockPath(FetchPath(residence, block)) == Some(JoinPayload(residence, block))
  {
    var path := FetchPath(residence, block);
    assert path[|BlockRoutePrefix|..] == residence + "/" + block;
    ParsePairRoundTrip(residence, block);
  }

  /** In `a + "/" + b` with no `/` in `a`, the first `/` is right after `a`. */
  lemma SlashAt(a: string, b: string)
    requires NoSlash(a)
    ensures SlashIndex(a + "/" + b) == |a|
    ensures SlashIndex(a) == |a|
  {
    if a != [] {
      assert (a + "/" + b)[1..] == a[1..] + "/" + b;
      SlashAt(a[1..], b);
    }
  }

  /** A block containing `/` breaks the fetch: the page asks for a path the route reads differently. */
  lemma SlashInBlockBreaksFetch()
    ensures RouteBlockPath(FetchPath("Malema", "2/B")) != Some(JoinPayload("Malema", "2/B"))
  {
    var r := RouteBlockPath(FetchPath("Malema", "2/B"));
    if r.Some? {
      assert NoSlash(r.value.block);
      assert r.value.block != "2/B" by { assert "2/B"[1] == '/'; }
    }
  }
}
