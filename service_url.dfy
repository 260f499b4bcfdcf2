/**
  Endpoint resolution (`get_service_url`): the inference URL of a cluster service,
  built from the hostname of its load balancer's first ingress entry, or the local
  fallback URL when that hostname cannot be obtained.

  The `kubectl` query and the JSON decoding of its output are replaced by their
  outcome: either the query failed in some way, or it produced the service's list of
  load-balancer ingress entries, each with or without a "hostname" field.
*/
module ServiceUrl {
  import opened Opt

  const Scheme: string := "http://"
  const PortAndPath: string := ":11434/api/generate"
  const LocalHost: string := "localhost"

  /** The URL used whenever the lookup fails. */
  const Fallback: string := "http://localhost:11434/api/generate"

  /** What `kubectl get svc <name> -n <namespace> -o json` gave. */
  datatype Lookup =
    | Failed
      // the command failed, printed invalid JSON, or lacked status.loadBalancer.ingress
    | Described(ingress: seq<Option<string>>)
      // the ingress entries, each with its "hostname" field if present

  /** `service["status"]["loadBalancer"]["ingress"][0]["hostname"]`, when it exists. */
  function Hostname(lookup: Lookup): Option<string> {
    match lookup
    case Failed => None
    case Described(entries) => if |entries| > 0 then entries[0] else None
  }

  /** The inference URL of a host: the host sits between the scheme and the port and path. */
  function UrlFor(host: string): (url: string)
    ensures |url| == |Scheme| + |host| + |PortAndPath|
    ensures url[..|Scheme|] == Scheme
    ensures url[|Scheme|..|Scheme| + |host|] == host
    ensures url[|Scheme| + |host|..] == PortAndPath
  {
    Scheme + host + PortAndPath
  }

  /** `get_service_url`: never fails; falls back to the local endpoint. */
  function GetServiceUrl(lookup: Lookup): (url: string)
    ensures |url| >= |Scheme| + |PortAndPath|
    ensures url[..|Scheme|] == Scheme
    ensures url[|url| - |PortAndPath|..] == PortAndPath
  {
    match Hostname(lookup)
    case Some(host) => UrlFor(host)
    case None => Fallback
  }

  /** The host named in an inference URL: the inverse of `UrlFor`. */
  function HostOf(url: string): (host: Option<string>)
    ensures host.Some? ==> UrlFor(host.value) == url
  {
    if |url| >= |Scheme| + |PortAndPath| && url[..|Scheme|] == Scheme &&
       url[|url| - |PortAndPath|..] == PortAndPath
    then
      var host := url[|Scheme|..|url| - |PortAndPath|];
      assert url == url[..|Scheme|] + host + url[|url| - |PortAndPath|..];
      Some(host)
    else None
  }

  /** Reading the host back out of a built URL gives the host it was built from. */
  lemma HostOfUrlFor(host: string)
    ensures HostOf(UrlFor(host)) == Some(host)
  {
    var url := UrlFor(host);
    assert url[..|Scheme|] == Scheme;
    assert url[|url| - |PortAndPath|..] == PortAndPath;
    assert url[|Scheme|..|url| - |PortAndPath|] == host;
  }

  /** The fallback literal is the URL of the local host. */
  lemma FallbackIsLocalUrl()
    ensures Fallback == UrlFor(LocalHost)
  {
    assert Scheme + LocalHost == "http://localhost";
  }

  /**
    The URL names the looked-up hostname when there is one and "localhost" otherwise:
    the fallback is the same URL shape for the local host.
  */
  lemma ResolvedHost(lookup: Lookup)
    ensures HostOf(GetServiceUrl(lookup)) == Some(Hostname(lookup).GetOr(LocalHost))
    ensures Hostname(lookup).None? ==> GetServiceUrl(lookup) == Fallback
  {
    match Hostname(lookup)
    case Some(host) =>
      HostOfUrlFor(host);
    case None =>
      FallbackIsLocalUrl();
      HostOfUrlFor(LocalHost);
  }
}
