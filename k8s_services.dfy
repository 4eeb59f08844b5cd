/**
 * The cluster-services endpoint: the service list returned by the
 * Kubernetes API, projected to the summary records the dashboard shows,
 * wrapped with its count; or a fixed error payload when listing fails.
 * Fields of the upstream objects that the projection never reads are not
 * modelled, except two port fields kept to show that they are dropped.
 */
module K8sServices {
  import opened Wrappers

  /** A port number or a named port. */
  datatype IntOrString = IntValue(i: int) | StringValue(s: string)

  datatype ServicePort = ServicePort(
    name: Option<string>,
    port: int,
    targetPort: Option<IntOrString>,
    protocol: Option<string>,
    nodePort: Option<int>)

  datatype LoadBalancerIngress = LoadBalancerIngress(hostname: Option<string>, ip: Option<string>)

  datatype LoadBalancerStatus = LoadBalancerStatus(ingress: Option<seq<LoadBalancerIngress>>)

  datatype ServiceStatus = ServiceStatus(loadBalancer: Option<LoadBalancerStatus>)

  datatype ObjectMeta = ObjectMeta(name: Option<string>, namespace: Option<string>)

  /** `spec`; the field `type` is called `serviceType` here. */
  datatype ServiceSpec = ServiceSpec(
    serviceType: Option<string>,
    clusterIP: Option<string>,
    ports: Option<seq<ServicePort>>)

  /** A `V1Service` as listed by the API; every part may be absent. */
  datatype Service = Service(metadata: Option<ObjectMeta>, spec: Option<ServiceSpec>, status: Option<ServiceStatus>)

  datatype PortSummary = PortSummary(port: int, targetPort: Option<IntOrString>, protocol: Option<string>)

  /** One record of the response's `services`; an `externalUrls` entry may be `undefined`. */
  datatype ServiceSummary = ServiceSummary(
    name: Option<string>,
    namespace: Option<string>,
    serviceType: Option<string>,
    clusterIP: Option<string>,
    ports: seq<PortSummary>,
    externalUrls: seq<Option<string>>)

  /** The JSON body and HTTP status of the response. */
  datatype Payload = Payload(error: Option<string>, services: seq<ServiceSummary>, count: int, status: int)

  const FailureMessage: string := "Failed to fetch Kubernetes services"

  /** `xs.map(f)`: one result per element, in order. */
  function MapSeq<A, B>(f: A -> B, xs: seq<A>): (r: seq<B>)
    ensures |r| == |xs|
    ensures forall i :: 0 <= i < |xs| ==> r[i] == f(xs[i])
    decreases |xs|
  {
    if xs == [] then [] else [f(xs[0])] + MapSeq(f, xs[1..])
  }

  /** Mapping a concatenation maps each part: the projection never reorders or merges elements. */
  lemma {:induction false} MapSeqAppend<A, B>(f: A -> B, xs: seq<A>, ys: seq<A>)
    ensures MapSeq(f, xs + ys) == MapSeq(f, xs) + MapSeq(f, ys)
    decreases |xs|
  {
    if xs != [] {
      assert (xs + ys)[1..] == xs[1..] + ys;
      MapSeqAppend(f, xs[1..], ys);
    }
  }

  /** `{port, targetPort, protocol}` of one port. */
  function PortOf(p: ServicePort): PortSummary {
    PortSummary(p.port, p.targetPort, p.protocol)
  }

  /** `ingress.hostname || ingress.ip`: the host name when it is a non-empty string, otherwise the ip as it is. */
  function ExternalUrl(ingress: LoadBalancerIngress): (r: Option<string>)
    ensures ingress.hostname.Some? && ingress.hostname.value != "" ==> r == ingress.hostname
    ensures (ingress.hostname.None? || ingress.hostname.value == "") ==> r == ingress.ip
  {
    match ingress.hostname
    case Some(h) => if h != "" then Some(h) else ingress.ip
    case None => ingress.ip
  }

  /** `spec?.ports?.map(...) || []`. */
  function PortsOf(spec: Option<ServiceSpec>): seq<PortSummary> {
    if spec.Some? && spec.value.ports.Some? then MapSeq(PortOf, spec.value.ports.value) else []
  }

  /** `status?.loadBalancer?.ingress?.map(...) || []`. */
  function ExternalUrlsOf(status: Option<ServiceStatus>): seq<Option<string>> {
    if status.Some? && status.value.loadBalancer.Some? && status.value.loadBalancer.value.ingress.Some?
    then MapSeq(ExternalUrl, status.value.loadBalancer.value.ingress.value)
    else []
  }

  /** The summary of one service. */
  function Summarize(s: Service): ServiceSummary {
    ServiceSummary(
      if s.metadata.Some? then s.metadata.value.name else None,
      if s.metadata.Some? then s.metadata.value.namespace else None,
      if s.spec.Some? then s.spec.value.serviceType else None,
      if s.spec.Some? then s.spec.value.clusterIP else None,
      PortsOf(s.spec),
      ExternalUrlsOf(s.status))
  }

  /**
   * The handler: `listing` is the listed services, or `None` when the
   * Kubernetes client failed (configuration or request), which the catch
   * branch turns into the fixed error payload with status 500.
   */
  function ServicesResponse(listing: Option<seq<Service>>): (r: Payload)
    ensures r.count == |r.services|
    ensures r.error.None? <==> listing.Some?
    ensures listing.None? ==> r == Payload(Some(FailureMessage), [], 0, 500)
    ensures listing.Some? ==> r.status == 200 && r.services == MapSeq(Summarize, listing.value)
  {
    match listing
    case Some(items) =>
      var services := MapSeq(Summarize, items);
      Payload(None, services, |services|, 200)
    case None => Payload(Some(FailureMessage), [], 0, 500)
  }

  /** On success there is exactly one summary per listed service, in the listed order. */
  lemma OneSummaryPerService(items: seq<Service>, i: nat)
    requires i < |items|
    ensures var r := ServicesResponse(Some(items));
            r.count == |items| && r.services[i] == Summarize(items[i])
  {
  }

  /** Listing more services appends their summaries after the earlier ones. */
  lemma SummariesConcatenate(items: seq<Service>, more: seq<Service>)
    ensures ServicesResponse(Some(items + more)).services ==
              ServicesResponse(Some(items)).services + ServicesResponse(Some(more)).services
  {
    MapSeqAppend(Summarize, items, more);
  }

  /** Name and namespace come from `metadata`, type and cluster IP from `spec`, each absent with its parent. */
  lemma SummaryFieldsFromParents(s: Service)
    ensures s.metadata.Some? ==> Summarize(s).name == s.metadata.value.name
    ensures s.metadata.Some? ==> Summarize(s).namespace == s.metadata.value.namespace
    ensures s.metadata.None? ==> Summarize(s).name.None? && Summarize(s).namespace.None?
    ensures s.spec.Some? ==> Summarize(s).serviceType == s.spec.value.serviceType
    ensures s.spec.Some? ==> Summarize(s).clusterIP == s.spec.value.clusterIP
    ensures s.spec.None? ==> Summarize(s).serviceType.None? && Summarize(s).clusterIP.None?
  {
  }

  /**
   * The ports are empty when `spec.ports` is absent; otherwise there is one
   * per upstream port, in order, with port, target port and protocol copied.
   */
  lemma PortsCopied(s: Service)
    ensures (s.spec.None? || s.spec.value.ports.None?) ==> Summarize(s).ports == []
    ensures s.spec.Some? && s.spec.value.ports.Some? ==>
              var ps := s.spec.value.ports.value;
              var out := Summarize(s).ports;
              |out| == |ps| &&
              forall i :: 0 <= i < |ps| ==>
                out[i].port == ps[i].port && out[i].targetPort == ps[i].targetPort && out[i].protocol == ps[i].protocol
  {
  }

  /**
   * One external address per load-balancer ingress, in order: its host name
   * when non-empty, otherwise its ip.
   */
  lemma ExternalUrlsFromIngress(st: ServiceStatus, ingress: seq<LoadBalancerIngress>, i: nat)
    requires st.loadBalancer == Some(LoadBalancerStatus(Some(ingress)))
    requires i < |ingress|
    ensures |ExternalUrlsOf(Some(st))| == |ingress|
    ensures var u := ExternalUrlsOf(Some(st))[i];
            var h := ingress[i].hostname;
            u == (if h.Some? && h.value != "" then h else ingress[i].ip)
  {
  }

  /** An address is `undefined` only for an ingress with neither a non-empty host name nor an ip. */
  lemma UndefinedAddressIff(ingress: LoadBalancerIngress)
    ensures ExternalUrl(ingress).None? <==>
              (ingress.hostname.None? || ingress.hostname.value == "") && ingress.ip.None?
  {
  }

  /** Without an ingress list, at any level, there are no external addresses. */
  lemma NoIngressNoUrls(status: Option<ServiceStatus>)
    requires status.None? || status.value.loadBalancer.None? || status.value.loadBalancer.value.ingress.None?
    ensures ExternalUrlsOf(status) == []
  {
  }
}
