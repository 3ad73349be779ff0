/** `echoer/config.py`: the service address and the namespace URIs, as
    functions of the host and port the environment supplies.  Reading the
    environment (`load_dotenv`, `os.getenv`) is not modelled: the values it
    returns are parameters. */
module Config {
  import opened Wrappers

  /** The settings the rest of the model depends on. */
  datatype Config = Config(host: string, port: string)

  const DefaultHost: string := "0.0.0.0"
  const DefaultPort: string := "5080"

  const SoapWsdl: string := "http://schemas.xmlsoap.org/wsdl/"
  const SoapNs: string := "http://schemas.xmlsoap.org/wsdl/soap/"
  const SoapXsd: string := "http://www.w3.org/2001/XMLSchema"
  const SoapEnvelope: string := "http://schemas.xmlsoap.org/soap/envelope/"

  /** `os.getenv('HOST', "0.0.0.0")` and `os.getenv('PORT', "5080")`: the
      default applies only when the variable is unset, so a variable set to
      the empty string yields the empty string. */
  function Load(hostEnv: Option<string>, portEnv: Option<string>): (c: Config)
    ensures hostEnv.None? ==> c.host == "0.0.0.0"
    ensures portEnv.None? ==> c.port == "5080"
    ensures hostEnv.Some? ==> c.host == hostEnv.value
    ensures portEnv.Some? ==> c.port == portEnv.value
  {
    Config(hostEnv.GetOr(DefaultHost), portEnv.GetOr(DefaultPort))
  }

  /** `SERVICE_ADDRESS = f"http://{HOST}:{PORT}"` */
  function ServiceAddress(c: Config): string {
    "http://" + c.host + ":" + c.port
  }

  /** `SOAP_TNS = f"{SERVICE_ADDRESS}/echo/soap"` */
  function SoapTns(c: Config): string {
    ServiceAddress(c) + "/echo/soap"
  }

  /** `SOAP_NSMAP` */
  function NsMap(c: Config): (m: map<string, string>)
    ensures m.Keys == {"wsdl", "soap", "xsd", "tns", "env"}
    ensures m["wsdl"] == SoapWsdl && m["soap"] == SoapNs && m["xsd"] == SoapXsd
    ensures m["tns"] == SoapTns(c) && m["env"] == SoapEnvelope
  {
    map["wsdl" := SoapWsdl, "soap" := SoapNs, "xsd" := SoapXsd, "tns" := SoapTns(c), "env" := SoapEnvelope]
  }

  /** The namespace map has exactly the five prefixes; only `tns` depends
      on the host and port. */
  lemma NsMapShape(c: Config, c': Config)
    ensures NsMap(c).Keys == {"wsdl", "soap", "xsd", "tns", "env"}
    ensures NsMap(c)["tns"] == SoapTns(c) && NsMap(c)["env"] == SoapEnvelope
    ensures forall p | p in NsMap(c) && p != "tns" :: NsMap(c)[p] == NsMap(c')[p]
  {
  }

  /** The part of an `http://host:port` address after the last colon, and
      the part between the scheme and that colon. */
  function SplitAuthority(addr: string): Option<(string, string)> {
    if |addr| < 7 || addr[..7] != "http://" then None
    else LastColonSplit(addr[7..])
  }

  function LastColonSplit(s: string): (r: Option<(string, string)>)
    ensures r.Some? ==> s == r.value.0 + ":" + r.value.1 && ':' !in r.value.1
    ensures r.None? ==> ':' !in s
  {
    if |s| == 0 then None
    else if s[|s| - 1] == ':' then Some((s[..|s| - 1], ""))
    else
      match LastColonSplit(s[..|s| - 1])
      case None => None
      case Some((h, p)) => Some((h, p + [s[|s| - 1]]))
  }

  /** The service address determines the host and the port, provided the
      port has no colon in it. */
  lemma {:induction false} ServiceAddressSplits(c: Config)
    requires ':' !in c.port
    ensures SplitAuthority(ServiceAddress(c)) == Some((c.host, c.port))
  {
    var a := ServiceAddress(c);
    assert a[..7] == "http://";
    assert a[7..] == c.host + ":" + c.port;
    SplitAtLastColon(c.host, c.port);
  }

  lemma {:induction false} SplitAtLastColon(h: string, p: string)
    requires ':' !in p
    ensures LastColonSplit(h + ":" + p) == Some((h, p))
    decreases |p|
  {
    var s := h + ":" + p;
    if |p| == 0 {
      assert s[..|s| - 1] == h;
    } else {
      var p' := p[..|p| - 1];
      assert s[..|s| - 1] == h + ":" + p';
      assert s[|s| - 1] == p[|p| - 1];
      SplitAtLastColon(h, p');
      assert p' + [p[|p| - 1]] == p;
    }
  }
}
