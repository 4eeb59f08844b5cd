/**
 * Where the page sends its chat questions: the page's origin with a
 * development port `:3000` (and everything after it) cut off, followed by
 * the backend port `:3001`.
 */
module ApiUrl {
  import opened Wrappers
  import opened JsStrings

  const DevPort: string := ":3000"
  const BackendPort: string := ":3001"

  /** `baseUrl`: `origin.split(":3000")[0]`. */
  function BaseUrl(origin: string): (r: string)
    ensures r <= origin
    ensures forall j :: 0 <= j <= |r| ==> !OccursAt(r, DevPort, j)
    ensures |r| < |origin| ==> OccursAt(origin, DevPort, |r|)
  {
    FirstPiece(origin, DevPort)
  }

  /**
   * `apiUrl` once both effects have run: `baseUrl + ":3001"`, or still
   * `null` (`None`) when the base is empty, since the second effect only
   * sets it for a non-empty base.
   */
  function ApiUrlOf(origin: string): (r: Option<string>)
    ensures r.None? <==> origin == "" || OccursAt(origin, DevPort, 0)
    ensures r.Some? ==> |r.value| > |BackendPort| && r.value[|r.value| - |BackendPort|..] == BackendPort
    ensures r.Some? ==> r.value[..|r.value| - |BackendPort|] <= origin
  {
    var base := BaseUrl(origin);
    if base != "" then
      var url := base + BackendPort;
      assert url[..|url| - |BackendPort|] == base;
      Some(url)
    else None
  }

  /**
   * No occurrence of `:3000` in `origin` can start inside `prefix` when
   * `prefix` itself has none: the pattern's `:` appears only at its start.
   */
  lemma NoEarlierDevPort(prefix: string, rest: string, j: nat)
    requires forall i :: 0 <= i <= |prefix| ==> !OccursAt(prefix, DevPort, i)
    requires j < |prefix|
    ensures !OccursAt(prefix + DevPort + rest, DevPort, j)
  {
    var s := prefix + DevPort + rest;
    if j + |DevPort| <= |prefix| {
      assert !OccursAt(prefix, DevPort, j);
      assert s[j..j + |DevPort|] == prefix[j..j + |DevPort|];
    } else {
      var d := |prefix| - j;
      assert s[j..j + |DevPort|][d] == ':';
      assert DevPort[d] != ':';
    }
  }

  /** A development origin `prefix:3000...` gives `prefix:3001`, the port swapped in place. */
  lemma DevOriginSwapsPort(prefix: string, rest: string)
    requires prefix != ""
    requires forall i :: 0 <= i <= |prefix| ==> !OccursAt(prefix, DevPort, i)
    ensures ApiUrlOf(prefix + DevPort + rest) == Some(prefix + BackendPort)
  {
    var s := prefix + DevPort + rest;
    assert s[|prefix|..|prefix| + |DevPort|] == DevPort;
    assert OccursAt(s, DevPort, |prefix|);
    forall j | 0 <= j < |prefix|
      ensures !OccursAt(s, DevPort, j)
    {
      NoEarlierDevPort(prefix, rest, j);
    }
    assert IndexOf(s, DevPort, 0) == Some(|prefix|);
    assert s[..|prefix|] == prefix;
  }

  /** An origin without `:3000` (a production host, say) gets `:3001` appended to the whole origin. */
  lemma OtherOriginAppendsPort(origin: string)
    requires origin != ""
    requires forall i :: 0 <= i <= |origin| ==> !OccursAt(origin, DevPort, i)
    ensures ApiUrlOf(origin) == Some(origin + BackendPort)
  {
    assert IndexOf(origin, DevPort, 0).None?;
  }
}
