// LogService.getClientIp: the client address recorded in an audit entry,
// taken from the proxy headers before the socket's own address. Saving the
// entry (asynchronously) is not modelled.

module LogService {

  import opened Wrappers
  import opened Text

  /** The parts of an HttpServletRequest getClientIp reads: three headers
      and `getRemoteAddr()`, each possibly null. */
  datatype Request = Request(forwardedFor: Option<string>, proxyClientIp: Option<string>,
                             wlProxyClientIp: Option<string>, remoteAddr: Option<string>)

  /** `ip == null || ip.isEmpty() || "unknown".equalsIgnoreCase(ip)` */
  predicate Absent(ip: Option<string>) {
    ip.None? || ip.value == [] || EqualsIgnoreCase("unknown", ip.value)
  }

  /** The fallback chain: X-Forwarded-For, then Proxy-Client-IP, then
      WL-Proxy-Client-IP, then the remote address. */
  function Chosen(req: Request): (ip: Option<string>)
    ensures !Absent(req.forwardedFor) ==> ip == req.forwardedFor
    ensures Absent(req.forwardedFor) && !Absent(req.proxyClientIp) ==> ip == req.proxyClientIp
    ensures Absent(req.forwardedFor) && Absent(req.proxyClientIp) && !Absent(req.wlProxyClientIp) ==>
              ip == req.wlProxyClientIp
    ensures Absent(req.forwardedFor) && Absent(req.proxyClientIp) && Absent(req.wlProxyClientIp) ==>
              ip == req.remoteAddr
  {
    var ip1 := req.forwardedFor;
    var ip2 := if Absent(ip1) then req.proxyClientIp else ip1;
    var ip3 := if Absent(ip2) then req.wlProxyClientIp else ip2;
    if Absent(ip3) then req.remoteAddr else ip3
  }

  /** Indexing the empty array `split` returns: an
      ArrayIndexOutOfBoundsException. */
  datatype Failure = IndexOutOfBounds

  /** getClientIp as written: a value with a comma is cut to
      `ip.split(",")[0].trim()`. String.split drops trailing empty strings,
      so a value made only of commas splits into no parts at all. */
  function ClientIpAsWritten(req: Option<Request>): (r: Result<Option<string>, Failure>)
    ensures req.None? ==> r == Ok(Some("UNKNOWN"))
  {
    if req.None? then Ok(Some("UNKNOWN"))
    else
      var ip := Chosen(req.value);
      if ip.Some? && ContainsChar(ip.value, ',') then
        var parts := JavaSplit(ip.value, ',');
        if parts == [] then Err(IndexOutOfBounds) else Ok(Some(Trim(parts[0])))
      else Ok(ip)
  }

  /** getClientIp as intended: the first element of the proxy chain,
      trimmed, which is empty when the chain starts with a comma. */
  function ClientIp(req: Option<Request>): (r: Option<string>)
    ensures req.None? ==> r == Some("UNKNOWN")
    ensures req.Some? && (Chosen(req.value).None? || !ContainsChar(Chosen(req.value).value, ',')) ==>
              r == Chosen(req.value)
    ensures req.Some? && r.Some? ==> !ContainsChar(r.value, ',')
  {
    if req.None? then Some("UNKNOWN")
    else
      var ip := Chosen(req.value);
      if ip.Some? && ContainsChar(ip.value, ',') then
        var first := SplitAll(ip.value, ',')[0];
        TrimKeepsAbsentChar(first, ',');
        Some(Trim(first))
      else ip
  }

  /** Trimming only removes characters, so it adds no comma. */
  lemma TrimKeepsAbsentChar(s: string, c: char)
    requires !ContainsChar(s, c)
    ensures !ContainsChar(Trim(s), c)
  {
    var t := TrimStartWith(s, IsTrimmable);
    var r := TrimEndWith(t, IsTrimmable);
    forall i | 0 <= i < |r| ensures r[i] != c {
      assert r[i] == t[i] == s[|s| - |t| + i];
    }
  }

  /** The proxy chain starts with its first element, before any comma. */
  lemma {:induction false} SplitFirstIsPrefix(s: string, sep: char)
    ensures StartsWith(s, SplitAll(s, sep)[0])
    decreases |s|
  {
    if s != [] && s[0] != sep {
      SplitFirstIsPrefix(s[1..], sep);
      var first := SplitAll(s[1..], sep)[0];
      assert s[1..][..|first|] == first;
      assert s[..|first| + 1] == [s[0]] + s[1..][..|first|];
    }
  }

  /** With a valid X-Forwarded-For the later headers and the remote address
      are never consulted: changing them changes nothing. */
  lemma ForwardedForDecides(req: Request, proxy: Option<string>, wl: Option<string>, remote: Option<string>)
    requires !Absent(req.forwardedFor)
    ensures ClientIp(Some(req)) == ClientIp(Some(Request(req.forwardedFor, proxy, wl, remote)))
    ensures ClientIpAsWritten(Some(req)) == ClientIpAsWritten(Some(Request(req.forwardedFor, proxy, wl, remote)))
  {
  }

  /** The proxy chain's first element is its text up to the first comma. */
  lemma ChainFirstElement(req: Request)
    requires Chosen(req).Some? && ContainsChar(Chosen(req).value, ',')
    ensures exists first :: StartsWith(Chosen(req).value, first) && !ContainsChar(first, ',')
                            && ClientIp(Some(req)) == Some(Trim(first))
  {
    var ip := Chosen(req).value;
    SplitFirstIsPrefix(ip, ',');
    var first := SplitAll(ip, ',')[0];
    assert StartsWith(ip, first) && !ContainsChar(first, ',');
  }

  /** All parts of a split are empty exactly when the text holds nothing
      but separators. */
  lemma {:induction false} SplitAllEmptyParts(s: string, sep: char)
    ensures (forall i :: 0 <= i < |SplitAll(s, sep)| ==> SplitAll(s, sep)[i] == []) <==>
            (forall i :: 0 <= i < |s| ==> s[i] == sep)
    decreases |s|
  {
    if s != [] {
      SplitAllEmptyParts(s[1..], sep);
      var rest := SplitAll(s[1..], sep);
      var parts := SplitAll(s, sep);
      if s[0] == sep {
        assert parts == [[]] + rest;
        if forall i :: 0 <= i < |rest| ==> rest[i] == [] {
          forall i | 0 <= i < |s| ensures s[i] == sep {
            if i > 0 { assert s[i] == s[1..][i - 1]; }
          }
        } else {
          var k :| 0 <= k < |rest| && rest[k] != [];
          assert parts[k + 1] != [];
        }
      } else {
        assert parts[0] != [];
      }
    }
  }

  /** Dropping trailing empty parts leaves nothing exactly when every part
      is empty. */
  lemma DropTrailingEmptyNothing(parts: seq<string>)
    ensures DropTrailingEmpty(parts) == [] <==> forall i :: 0 <= i < |parts| ==> parts[i] == []
  {
    var r := DropTrailingEmpty(parts);
    if r != [] {
      assert parts[|r| - 1] == r[|r| - 1] != [];
    }
  }

  /** getClientIp as written fails exactly when the chosen value is a
      non-empty run of commas; otherwise it agrees with the intended one. */
  lemma AsWrittenFailsOnlyOnCommas(req: Request)
    ensures ClientIpAsWritten(Some(req)).Err? <==>
              Chosen(req).Some? && Chosen(req).value != []
              && forall i :: 0 <= i < |Chosen(req).value| ==> Chosen(req).value[i] == ','
    ensures ClientIpAsWritten(Some(req)).Ok? ==> ClientIpAsWritten(Some(req)).value == ClientIp(Some(req))
  {
    var ip := Chosen(req);
    if ip.Some? {
      var s := ip.value;
      SplitAllEmptyParts(s, ',');
      DropTrailingEmptyNothing(SplitAll(s, ','));
      if s != [] && forall i :: 0 <= i < |s| ==> s[i] == ',' {
        assert s[0] == ',';
      }
    }
  }

  /** The discrepancy: a forwarded-for header of a single comma passes the
      fallback check and makes the split index out of bounds. */
  lemma LoneCommaThrows()
    ensures ClientIpAsWritten(Some(Request(Some(","), None, None, Some("10.0.0.1")))) == Err(IndexOutOfBounds)
    ensures ClientIp(Some(Request(Some(","), None, None, Some("10.0.0.1")))) == Some("")
  {
    var req := Request(Some(","), None, None, Some("10.0.0.1"));
    assert !EqualsIgnoreCase("unknown", ",");
    assert Chosen(req) == Some(",");
    AsWrittenFailsOnlyOnCommas(req);
    assert SplitAll(",", ',') == [[], []] by {
      assert ","[1..] == [];
    }
  }
}
