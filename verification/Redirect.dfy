/** The proxy's destination policy and its HTTP handler, which follows redirects by hand. */
module Redirect {
  import opened Common

  // ---- Addresses -----------------------------------------------------------

  type u16 = n: int | 0 <= n <= U16_MAX

  datatype Ip =
    | V4(a: byte, b: byte, c: byte, d: byte)
    | V6(s0: u16, s1: u16, s2: u16, s3: u16, s4: u16, s5: u16, s6: u16, s7: u16)

  predicate ReservedV4(a: byte, b: byte, c: byte) {
    || a == 0
    || (a == 100 && 64 <= b <= 127)
    || (a == 192 && b == 0 && (c == 0 || c == 2))
    || (a == 192 && b == 88 && c == 99)
    || (a == 198 && 18 <= b <= 19)
    || (a == 198 && b == 51 && c == 100)
    || (a == 203 && b == 0 && c == 113)
    || a >= 240
  }

  /** The IPv4 address inside `::ffff:a.b.c.d`. */
  function MappedV4(ip: Ip): (r: Option<Ip>)
    ensures r.Some? ==> r.value.V4?
  {
    if ip.V6? && ip.s0 == ip.s1 == ip.s2 == ip.s3 == ip.s4 == 0 && ip.s5 == 0xffff then
      Some(V4(ip.s6 / 256, ip.s6 % 256, ip.s7 / 256, ip.s7 % 256))
    else None
  }

  predicate AlwaysDisallowed(ip: Ip)
    decreases ip.V6?
  {
    match ip
    case V4(a, b, c, d) =>
      || (a == b == c == d == 0)
      || 224 <= a <= 239
      || (a == b == c == d == 255)
      || ReservedV4(a, b, c)
    case V6(s0, s1, s2, s3, s4, s5, s6, s7) =>
      || (s0 == s1 == s2 == s3 == s4 == s5 == s6 == s7 == 0)
      || s0 / 0x100 == 0xff
      || (s0 == 0x2001 && s1 == 0x0db8)
      || (MappedV4(ip).Some? && AlwaysDisallowed(MappedV4(ip).value))
  }

  predicate PrivateOrLocal(ip: Ip)
    decreases ip.V6?
  {
    match ip
    case V4(a, b, _, _) =>
      || a == 10 || (a == 172 && 16 <= b <= 31) || (a == 192 && b == 168)
      || a == 127
      || (a == 169 && b == 254)
    case V6(s0, s1, s2, s3, s4, s5, s6, s7) =>
      || (s0 == s1 == s2 == s3 == s4 == s5 == s6 == 0 && s7 == 1)
      || s0 / 0x200 == 0xfc00 / 0x200 || s0 / 0x40 == 0xfe80 / 0x40
      || (MappedV4(ip).Some? && PrivateOrLocal(MappedV4(ip).value))
  }

  // ---- Policy --------------------------------------------------------------

  datatype Scheme = Http | Https | Tcp | Ws | Wss

  function ParseScheme(s: string): Option<Scheme> {
    if s == "http" then Some(Http)
    else if s == "https" then Some(Https)
    else if s == "tcp" then Some(Tcp)
    else if s == "ws" then Some(Ws)
    else if s == "wss" then Some(Wss)
    else None
  }

  function DefaultPort(s: Scheme): Option<u16> {
    match s
    case Http | Ws => Some(80)
    case Https | Wss => Some(443)
    case Tcp => None
  }

  predicate Secure(s: Scheme) { s == Https || s == Wss }

  datatype Url = Url(scheme: string, username: string, password: Option<string>, host: Option<string>,
                     port: Option<u16>, path: string, query: Option<string>, fragment: Option<string>)

  datatype Key = Key(scheme: Scheme, host: string, port: u16)

  datatype Authorization = Unauthorized | Allowlisted | UserConfirmed

  datatype PolicyError =
    | AuthorizationRequired | TargetNotAllowlisted | UserConfirmationRequired | UnsupportedScheme
    | HostRequired | CredentialsNotAllowed | FragmentNotAllowed | InvalidTarget | InvalidPort
    | PortNotAllowed | AddressNotAllowed | NoResolvedAddresses | ResolutionFailed
    | ResolvedPortMismatch | RedirectLimitExceeded | CrossOriginRedirect | InsecureRedirect
    | DnsRebindingDetected | ResponseLimitExceeded

  datatype Policy = Policy(schemes: set<Scheme>, targets: set<Key>, ports: Option<set<u16>>,
                           userConfirmation: bool, localTargets: bool, crossOrigin: bool, insecure: bool,
                           maxRedirects: byte, maxResponse: u64)

  datatype SocketAddr = SocketAddr(ip: Ip, port: u16)

  datatype Validated = Validated(url: Url, key: Key)

  datatype Resolved = Resolved(target: Validated, addresses: seq<SocketAddr>)

  function WithoutDots(s: string): string {
    if s != "" && s[|s| - 1] == '.' then WithoutDots(s[..|s| - 1]) else s
  }

  function LowerChar(c: char): char { if 'A' <= c <= 'Z' then c - 'A' + 'a' else c }

  function Lower(s: string): string { seq(|s|, i requires 0 <= i < |s| => LowerChar(s[i])) }

  function TargetKey(u: Url): Result<Key, PolicyError> {
    var scheme := ParseScheme(u.scheme);
    if scheme.None? then Err(UnsupportedScheme)
    else if u.username != "" || u.password.Some? then Err(CredentialsNotAllowed)
    else if u.fragment.Some? then Err(FragmentNotAllowed)
    else if u.host.None? then Err(HostRequired)
    else
      var host := Lower(WithoutDots(u.host.value));
      var port := if u.port.Some? then u.port else DefaultPort(scheme.value);
      if host == "" then Err(HostRequired)
      else if port.None? || port.value == 0 then Err(InvalidPort)
      else if scheme.value == Tcp && ((u.path != "" && u.path != "/") || u.query.Some?) then Err(InvalidTarget)
      else Ok(Key(scheme.value, host, port.value))
  }

  predicate Permitted(p: Policy, ip: Ip) {
    !AlwaysDisallowed(ip) && (PrivateOrLocal(ip) ==> p.localTargets)
  }

  /** What the handler meets outside: host literals, DNS answers and servers, hop by hop. */
  datatype World = World(parse: string -> Option<Ip>,
                         lookup: (nat, string, u16) -> Option<seq<SocketAddr>>,
                         reply: (nat, Url, seq<SocketAddr>) -> Reply)

  /** A redirect carries the joined location, absent when it does not join to a URL. */
  datatype Reply = Failed | Moved(next: Option<Url>) | Answered

  function ValidateTarget(p: Policy, w: World, u: Url, auth: Authorization): Result<Validated, PolicyError> {
    match TargetKey(u)
    case Err(e) => Err(e)
    case Ok(key) =>
      if key.scheme !in p.schemes then Err(UnsupportedScheme)
      else if p.ports.Some? && key.port !in p.ports.value then Err(PortNotAllowed)
      else if auth == Unauthorized then Err(AuthorizationRequired)
      else if auth == Allowlisted && key !in p.targets then Err(TargetNotAllowlisted)
      else if auth == UserConfirmed && !p.userConfirmation then Err(UserConfirmationRequired)
      else if w.parse(key.host).Some? && !Permitted(p, w.parse(key.host).value) then Err(AddressNotAllowed)
      else Ok(Validated(u, key))
  }

  predicate Approved(p: Policy, port: u16, address: SocketAddr) {
    address.port == port && Permitted(p, address.ip)
  }

  function AddressError(port: u16, address: SocketAddr): PolicyError {
    if address.port != port then ResolvedPortMismatch else AddressNotAllowed
  }

  /** The complaint about the first unacceptable address, if there is one. */
  function Complaint(p: Policy, port: u16, addresses: seq<SocketAddr>): Option<PolicyError> {
    if addresses == [] then None
    else if Approved(p, port, addresses[0]) then Complaint(p, port, addresses[1..])
    else Some(AddressError(port, addresses[0]))
  }

  function Pinned(p: Policy, target: Validated, addresses: seq<SocketAddr>): Result<Resolved, PolicyError> {
    if addresses == [] then Err(NoResolvedAddresses)
    else
      match Complaint(p, target.key.port, addresses)
      case Some(e) => Err(e)
      case None => Ok(Resolved(target, addresses))
  }

  method ValidateResolved(p: Policy, target: Validated, addresses: seq<SocketAddr>)
      returns (r: Result<Resolved, PolicyError>)
    ensures r == Pinned(p, target, addresses)
  {
    if addresses == [] { return Err(NoResolvedAddresses); }
    for i := 0 to |addresses|
      invariant Complaint(p, target.key.port, addresses) == Complaint(p, target.key.port, addresses[i..])
    {
      assert addresses[i..][0] == addresses[i] && addresses[i..][1..] == addresses[i + 1..];
      if addresses[i].port != target.key.port { return Err(ResolvedPortMismatch); }
      if !Permitted(p, addresses[i].ip) { return Err(AddressNotAllowed); }
    }
    r := Ok(Resolved(target, addresses));
  }

  function Resolve(p: Policy, w: World, u: Url, auth: Authorization, hop: nat): Result<Resolved, PolicyError> {
    match ValidateTarget(p, w, u, auth)
    case Err(e) => Err(e)
    case Ok(target) =>
      var answer := w.lookup(hop, target.key.host, target.key.port);
      if answer.None? then Err(ResolutionFailed) else Pinned(p, target, answer.value)
  }

  function ValidateRedirect(p: Policy, w: World, from: Validated, next: Url, auth: Authorization, count: byte)
      : Result<Validated, PolicyError> {
    if count >= p.maxRedirects then Err(RedirectLimitExceeded)
    else
      match ValidateTarget(p, w, next, auth)
      case Err(e) => Err(e)
      case Ok(target) =>
        if Secure(from.key.scheme) && !Secure(target.key.scheme) && !p.insecure then Err(InsecureRedirect)
        else if !p.crossOrigin && from.key != target.key then Err(CrossOriginRedirect)
        else Ok(target)
  }

  function ValidateRetry(p: Policy, resolved: Resolved, address: SocketAddr): Option<PolicyError> {
    if !Permitted(p, address.ip) then Some(AddressNotAllowed)
    else if address.port != resolved.target.key.port then Some(ResolvedPortMismatch)
    else if address !in resolved.addresses then Some(DnsRebindingDetected)
    else None
  }

  // ---- What the policy allows ----------------------------------------------

  function Number(a: byte, b: byte, c: byte, d: byte): nat { ((a * 256 + b) * 256 + c) * 256 + d }

  /** An address block: its first address and its size. */
  datatype Block = Block(first: nat, size: nat)

  /** The blocks no policy opens, as prefixes: /8, /10, four /24, /15, two more /24, and the two top /4. */
  const CLOSED_BLOCKS := [
    Block(Number(0, 0, 0, 0), 0x100_0000), Block(Number(100, 64, 0, 0), 0x40_0000),
    Block(Number(192, 0, 0, 0), 0x100), Block(Number(192, 0, 2, 0), 0x100), Block(Number(192, 88, 99, 0), 0x100),
    Block(Number(198, 18, 0, 0), 0x2_0000), Block(Number(198, 51, 100, 0), 0x100),
    Block(Number(203, 0, 113, 0), 0x100), Block(Number(224, 0, 0, 0), 0x1000_0000),
    Block(Number(240, 0, 0, 0), 0x1000_0000)]

  /** The blocks that need the local opt-in: 10/8, 172.16/12, 192.168/16, 127/8 and 169.254/16. */
  const LOCAL_BLOCKS := [
    Block(Number(10, 0, 0, 0), 0x100_0000), Block(Number(172, 16, 0, 0), 0x10_0000),
    Block(Number(192, 168, 0, 0), 0x1_0000), Block(Number(127, 0, 0, 0), 0x100_0000),
    Block(Number(169, 254, 0, 0), 0x1_0000)]

  predicate InBlock(n: nat, b: Block) { b.first <= n < b.first + b.size }

  predicate InBlocks(n: nat, blocks: seq<Block>) { exists i :: 0 <= i < |blocks| && InBlock(n, blocks[i]) }

  /** The tests on octets are membership in the two lists of address blocks. */
  lemma BlocksExactly(a: byte, b: byte, c: byte, d: byte)
    ensures AlwaysDisallowed(V4(a, b, c, d)) <==> InBlocks(Number(a, b, c, d), CLOSED_BLOCKS)
    ensures PrivateOrLocal(V4(a, b, c, d)) <==> InBlocks(Number(a, b, c, d), LOCAL_BLOCKS)
  {
    ClosedExactly(a, b, c, d);
    LocalExactly(a, b, c, d);
  }

  lemma ClosedExactly(a: byte, b: byte, c: byte, d: byte)
    ensures AlwaysDisallowed(V4(a, b, c, d)) <==> InBlocks(Number(a, b, c, d), CLOSED_BLOCKS)
  {
    var n, blocks := Number(a, b, c, d), CLOSED_BLOCKS;
    assert a == 0 <==> InBlock(n, blocks[0]);
    assert a == 100 && 64 <= b <= 127 <==> InBlock(n, blocks[1]);
    assert a == 192 && b == 0 && c == 0 <==> InBlock(n, blocks[2]);
    assert a == 192 && b == 0 && c == 2 <==> InBlock(n, blocks[3]);
    assert a == 192 && b == 88 && c == 99 <==> InBlock(n, blocks[4]);
    assert a == 198 && 18 <= b <= 19 <==> InBlock(n, blocks[5]);
    assert a == 198 && b == 51 && c == 100 <==> InBlock(n, blocks[6]);
    assert a == 203 && b == 0 && c == 113 <==> InBlock(n, blocks[7]);
    assert 224 <= a <= 239 <==> InBlock(n, blocks[8]);
    assert a >= 240 <==> InBlock(n, blocks[9]);
    hide InBlock, Number;
  }

  lemma LocalExactly(a: byte, b: byte, c: byte, d: byte)
    ensures PrivateOrLocal(V4(a, b, c, d)) <==> InBlocks(Number(a, b, c, d), LOCAL_BLOCKS)
  {
    var n, blocks := Number(a, b, c, d), LOCAL_BLOCKS;
    assert a == 10 <==> InBlock(n, blocks[0]);
    assert a == 172 && 16 <= b <= 31 <==> InBlock(n, blocks[1]);
    assert a == 192 && b == 168 <==> InBlock(n, blocks[2]);
    assert a == 127 <==> InBlock(n, blocks[3]);
    assert a == 169 && b == 254 <==> InBlock(n, blocks[4]);
    hide InBlock, Number;
  }

  /** For IPv6 the blocks are ff00::/8, 2001:db8::/32 and the zero address; fc00::/7, fe80::/10 and ::1. */
  lemma V6Exactly(ip: Ip)
    requires ip.V6? && MappedV4(ip).None?
    ensures AlwaysDisallowed(ip) <==>
      0xff00 <= ip.s0 || (ip.s0 == 0x2001 && ip.s1 == 0xdb8) || ip == V6(0, 0, 0, 0, 0, 0, 0, 0)
    ensures PrivateOrLocal(ip) <==>
      0xfc00 <= ip.s0 <= 0xfdff || 0xfe80 <= ip.s0 <= 0xfebf || ip == V6(0, 0, 0, 0, 0, 0, 0, 1)
  {
  }

  /** The key of a URL, said without computing it. */
  ghost predicate Identifies(u: Url, key: Key) {
    && u.scheme == SchemeName(key.scheme)
    && u.username == "" && u.password.None? && u.fragment.None?
    && u.host.Some? && key.host == Lower(WithoutDots(u.host.value)) && key.host != ""
    && key.port != 0
    && (if u.port.Some? then u.port == Some(key.port)
        else (key.scheme in {Http, Ws} && key.port == 80) || (key.scheme in {Https, Wss} && key.port == 443))
    && (key.scheme == Tcp ==> (u.path == "" || u.path == "/") && u.query.None?)
  }

  function SchemeName(s: Scheme): string {
    match s case Http => "http" case Https => "https" case Tcp => "tcp" case Ws => "ws" case Wss => "wss"
  }

  /** Schemes are told apart by their names. */
  lemma SchemesExactly(text: string, s: Scheme)
    ensures ParseScheme(text) == Some(s) <==> text == SchemeName(s)
  {
    assert |"http"| == 4 && |"https"| == 5 && |"tcp"| == 3 && |"ws"| == 2 && |"wss"| == 3 && "tcp"[0] != "wss"[0];
  }

  lemma KeyExactly(u: Url, key: Key)
    ensures TargetKey(u) == Ok(key) <==> Identifies(u, key)
  {
    SchemesExactly(u.scheme, key.scheme);
    hide Lower, WithoutDots, SchemeName, ParseScheme;
  }

  /** A URL without a key is refused for the first of these that it lacks. */
  function KeyChecks(u: Url): seq<Check<PolicyError>> {
    [Check(ParseScheme(u.scheme).Some?, UnsupportedScheme),
     Check(u.username == "" && u.password.None?, CredentialsNotAllowed),
     Check(u.fragment.None?, FragmentNotAllowed),
     Check(u.host.Some? && WithoutDots(u.host.value) != "", HostRequired),
     Check(if u.port.Some? then u.port != Some(0) else u.scheme != "tcp", InvalidPort),
     Check(u.scheme == "tcp" ==> (u.path == "" || u.path == "/") && u.query.None?, InvalidTarget)]
  }

  lemma KeyRefusedExactly(u: Url)
    ensures (match TargetKey(u) case Ok(_) => None case Err(e) => Some(e)) == FirstFailure(KeyChecks(u), 0)
  {
    var c := KeyChecks(u);
    forall s: Scheme ensures ParseScheme(u.scheme) == Some(s) <==> u.scheme == SchemeName(s) {
      SchemesExactly(u.scheme, s);
    }
    assert u.host.Some? ==> (Lower(WithoutDots(u.host.value)) == "" <==> WithoutDots(u.host.value) == "");
    assert SchemeName(Tcp) == "tcp";
    hide Lower, WithoutDots, ParseScheme, SchemeName;
    assert FirstFailure(c, 6) == None;
    assert FirstFailure(c, 5) == if c[5].passed then None else Some(InvalidTarget);
    assert FirstFailure(c, 4) == if c[4].passed then FirstFailure(c, 5) else Some(InvalidPort);
    assert FirstFailure(c, 3) == if c[3].passed then FirstFailure(c, 4) else Some(HostRequired);
    assert FirstFailure(c, 2) == if c[2].passed then FirstFailure(c, 3) else Some(FragmentNotAllowed);
    assert FirstFailure(c, 1) == if c[1].passed then FirstFailure(c, 2) else Some(CredentialsNotAllowed);
  }

  /** The caller may go to this origin: it is on the list, or the user confirmed and the policy lets users. */
  ghost predicate Authorized(p: Policy, auth: Authorization, key: Key) {
    (auth == Allowlisted && key in p.targets) || (auth == UserConfirmed && p.userConfirmation)
  }

  /** All a target needs before anything is looked up. */
  ghost predicate Acceptable(p: Policy, w: World, auth: Authorization, u: Url, key: Key) {
    && Identifies(u, key)
    && key.scheme in p.schemes && (p.ports.Some? ==> key.port in p.ports.value)
    && Authorized(p, auth, key)
    && (w.parse(key.host).Some? ==> Permitted(p, w.parse(key.host).value))
  }

  /** A target is validated exactly when it is acceptable, as the origin it has. */
  lemma ValidatedExactly(p: Policy, w: World, u: Url, auth: Authorization, v: Validated)
    ensures ValidateTarget(p, w, u, auth) == Ok(v) <==> v.url == u && Acceptable(p, w, auth, u, v.key)
    ensures ValidateTarget(p, w, u, auth).Ok? <==> exists key :: Acceptable(p, w, auth, u, key)
  {
    KeyExactly(u, v.key);
    if TargetKey(u).Ok? {
      KeyExactly(u, TargetKey(u).value);
    }
    hide Identifies, Permitted;
    forall key ensures Identifies(u, key) <==> TargetKey(u) == Ok(key) { KeyExactly(u, key); }
    hide TargetKey;
    if ValidateTarget(p, w, u, auth).Ok? {
      assert Acceptable(p, w, auth, u, ValidateTarget(p, w, u, auth).value.key);
    }
  }

  /** A target with a key is refused for the first of these that it fails. */
  function TargetChecks(p: Policy, w: World, auth: Authorization, key: Key): seq<Check<PolicyError>> {
    [Check(key.scheme in p.schemes, UnsupportedScheme),
     Check(p.ports.Some? ==> key.port in p.ports.value, PortNotAllowed),
     Check(auth != Unauthorized, AuthorizationRequired),
     Check(auth == Allowlisted ==> key in p.targets, TargetNotAllowlisted),
     Check(auth == UserConfirmed ==> p.userConfirmation, UserConfirmationRequired),
     Check(w.parse(key.host).Some? ==> Permitted(p, w.parse(key.host).value), AddressNotAllowed)]
  }

  lemma TargetRefusedExactly(p: Policy, w: World, u: Url, auth: Authorization)
    ensures match TargetKey(u)
      case Err(e) => ValidateTarget(p, w, u, auth) == Err(e)
      case Ok(key) =>
        (match ValidateTarget(p, w, u, auth) case Ok(_) => None case Err(e) => Some(e))
          == FirstFailure(TargetChecks(p, w, auth, key), 0)
  {
    hide TargetKey, Permitted;
    if TargetKey(u).Ok? {
      var c := TargetChecks(p, w, auth, TargetKey(u).value);
      assert FirstFailure(c, 6) == None;
      assert FirstFailure(c, 5) == if c[5].passed then None else Some(AddressNotAllowed);
      assert FirstFailure(c, 4) == if c[4].passed then FirstFailure(c, 5) else Some(UserConfirmationRequired);
      assert FirstFailure(c, 3) == if c[3].passed then FirstFailure(c, 4) else Some(TargetNotAllowlisted);
      assert FirstFailure(c, 2) == if c[2].passed then FirstFailure(c, 3) else Some(AuthorizationRequired);
      assert FirstFailure(c, 1) == if c[1].passed then FirstFailure(c, 2) else Some(PortNotAllowed);
    }
  }

  /** Which addresses a policy permits, in blocks. */
  lemma PermittedExactly(p: Policy, a: byte, b: byte, c: byte, d: byte)
    ensures var n := Number(a, b, c, d);
      Permitted(p, V4(a, b, c, d)) <==> !InBlocks(n, CLOSED_BLOCKS) && (InBlocks(n, LOCAL_BLOCKS) ==> p.localTargets)
  {
    BlocksExactly(a, b, c, d);
    hide InBlocks, AlwaysDisallowed, PrivateOrLocal;
  }

  /** A redirect is refused for the limit first, then for its target, a loss of encryption, a change of origin. */
  lemma RedirectRefusedExactly(p: Policy, w: World, from: Validated, next: Url, auth: Authorization, count: byte)
    ensures var r, t := ValidateRedirect(p, w, from, next, auth, count), ValidateTarget(p, w, next, auth);
      if count >= p.maxRedirects then r == Err(RedirectLimitExceeded)
      else if t.Err? then r == Err(t.error)
      else
        var lost := from.key.scheme in {Https, Wss} && t.value.key.scheme !in {Https, Wss};
        if lost && !p.insecure then r == Err(InsecureRedirect)
        else if from.key != t.value.key && !p.crossOrigin then r == Err(CrossOriginRedirect)
        else r == t
  {
    hide ValidateTarget;
  }

  /** A resolution is refused for a failed lookup, an empty answer, or the first address that is not acceptable. */
  lemma ResolutionRefusedExactly(p: Policy, w: World, u: Url, auth: Authorization, hop: nat, k: nat)
    requires ValidateTarget(p, w, u, auth).Ok?
    ensures var key := ValidateTarget(p, w, u, auth).value.key;
      var r, answer := Resolve(p, w, u, auth, hop), w.lookup(hop, key.host, key.port);
      && (r == Err(ResolutionFailed) <==> answer.None?)
      && (r == Err(NoResolvedAddresses) <==> answer == Some([]))
      && (answer.Some? && k < |answer.value| && FirstBad(p, key.port, answer.value, k) ==>
            r == Err(if answer.value[k].port != key.port then ResolvedPortMismatch else AddressNotAllowed))
  {
    var key := ValidateTarget(p, w, u, auth).value.key;
    var answer := w.lookup(hop, key.host, key.port);
    hide ValidateTarget, Permitted;
    if answer.Some? {
      ComplaintKinds(p, key.port, answer.value);
      if k < |answer.value| && FirstBad(p, key.port, answer.value, k) {
        ComplaintFirst(p, key.port, answer.value, k);
      }
    }
  }

  ghost predicate FirstBad(p: Policy, port: u16, addresses: seq<SocketAddr>, k: nat)
    requires k < |addresses|
  {
    !Approved(p, port, addresses[k]) && forall j :: 0 <= j < k ==> Approved(p, port, addresses[j])
  }

  lemma {:induction false} ComplaintKinds(p: Policy, port: u16, addresses: seq<SocketAddr>)
    ensures var c := Complaint(p, port, addresses);
      c.Some? ==> c.value == ResolvedPortMismatch || c.value == AddressNotAllowed
  {
    if addresses != [] { ComplaintKinds(p, port, addresses[1..]); }
  }

  lemma {:induction false} ComplaintFirst(p: Policy, port: u16, addresses: seq<SocketAddr>, k: nat)
    requires k < |addresses| && FirstBad(p, port, addresses, k)
    ensures Complaint(p, port, addresses) ==
      Some(if addresses[k].port != port then ResolvedPortMismatch else AddressNotAllowed)
  {
    if k > 0 {
      assert Approved(p, port, addresses[0]);
      assert FirstBad(p, port, addresses[1..], k - 1) by {
        forall j | 0 <= j < k - 1 ensures Approved(p, port, addresses[1..][j]) {
          assert addresses[1..][j] == addresses[j + 1];
        }
      }
      ComplaintFirst(p, port, addresses[1..], k - 1);
    }
  }

  /** A retry elsewhere is refused for its address first, then its port, then for not having been pinned. */
  lemma RetryRefusedExactly(p: Policy, resolved: Resolved, retry: SocketAddr)
    ensures var r := ValidateRetry(p, resolved, retry);
      && (r == Some(AddressNotAllowed) <==> !Permitted(p, retry.ip))
      && (r == Some(ResolvedPortMismatch) <==> Permitted(p, retry.ip) && retry.port != resolved.target.key.port)
      && (r == Some(DnsRebindingDetected) <==>
            Permitted(p, retry.ip) && retry.port == resolved.target.key.port && retry !in resolved.addresses)
  {
  }

  // ---- Laws of the policy --------------------------------------------------

  /** Writing an IPv4 address in IPv6 form changes nothing about where the proxy may go. */
  lemma MappedSame(p: Policy, a: byte, b: byte, c: byte, d: byte)
    ensures Permitted(p, V6(0, 0, 0, 0, 0, 0xffff, a * 256 + b, c * 256 + d)) <==> Permitted(p, V4(a, b, c, d))
  {
  }

  lemma {:induction false} DotsTrimmed(s: string)
    ensures WithoutDots(s) == "" || WithoutDots(s)[|WithoutDots(s)| - 1] != '.'
    ensures WithoutDots(s + ".") == WithoutDots(s)
  {
    assert (s + ".")[..|s|] == s;
    if s != "" && s[|s| - 1] == '.' {
      DotsTrimmed(s[..|s| - 1]);
    }
  }

  lemma {:induction false} DotsIgnoreCase(s: string, t: string)
    requires Lower(s) == Lower(t)
    ensures Lower(WithoutDots(s)) == Lower(WithoutDots(t))
  {
    assert |s| == |Lower(s)| == |t|;
    if s != "" {
      var n := |s| - 1;
      assert Lower(s)[n] == LowerChar(s[n]) && Lower(t)[n] == LowerChar(t[n]);
      assert Lower(s[..n]) == Lower(s)[..n] && Lower(t[..n]) == Lower(t)[..n];
      if s[n] == '.' { DotsIgnoreCase(s[..n], t[..n]); }
    }
  }

  /** Origins do not depend on the case of the host, on trailing dots, or on spelling out the default port. */
  lemma KeyNormal(u: Url, host: string)
    requires u.host.Some? && Lower(u.host.value) == Lower(host)
    ensures TargetKey(u.(host := Some(host))) == TargetKey(u) == TargetKey(u.(host := Some(host + ".")))
    ensures TargetKey(u).Ok? ==> TargetKey(u.(port := Some(TargetKey(u).value.port))) == TargetKey(u)
    ensures TargetKey(u).Ok? ==> var h := TargetKey(u).value.host;
      h != "" && h[|h| - 1] != '.' && forall i :: 0 <= i < |h| ==> !('A' <= h[i] <= 'Z')
  {
    DotsIgnoreCase(u.host.value, host);
    DotsTrimmed(host);
    DotsTrimmed(u.host.value);
  }

  lemma {:induction false} ComplaintExactly(p: Policy, port: u16, addresses: seq<SocketAddr>)
    ensures Complaint(p, port, addresses).None? <==> forall x :: x in addresses ==> Approved(p, port, x)
  {
    if addresses != [] {
      ComplaintExactly(p, port, addresses[1..]);
      assert addresses == [addresses[0]] + addresses[1..];
    }
  }

  /** A retry is allowed exactly to the addresses pinned by the resolution. */
  lemma RetryExactly(p: Policy, target: Validated, addresses: seq<SocketAddr>, retry: SocketAddr)
    requires Pinned(p, target, addresses).Ok?
    ensures ValidateRetry(p, Pinned(p, target, addresses).value, retry).None? <==> retry in addresses
  {
    ComplaintExactly(p, target.key.port, addresses);
  }

  ghost predicate FirstAccepting(addresses: seq<SocketAddr>, accepts: SocketAddr -> bool, i: nat)
    requires i < |addresses|
  {
    accepts(addresses[i]) && forall x :: x in addresses[..i] ==> !accepts(x)
  }

  /** The pinned connect tries the addresses in order and stops at the first that accepts. */
  method ConnectPinned(p: Policy, target: Validated, addresses: seq<SocketAddr>, accepts: SocketAddr -> bool)
      returns (r: Option<SocketAddr>, refused: Option<PolicyError>)
    requires Pinned(p, target, addresses).Ok?
    ensures refused.None?
    ensures r.None? <==> forall x :: x in addresses ==> !accepts(x)
    ensures r.Some? ==>
      exists i :: 0 <= i < |addresses| && FirstAccepting(addresses, accepts, i) && r.value == addresses[i]
    ensures r.Some? ==> Approved(p, target.key.port, r.value)
  {
    var resolved := Pinned(p, target, addresses).value;
    for i := 0 to |addresses|
      invariant forall x :: x in addresses[..i] ==> !accepts(x)
    {
      RetryExactly(p, target, addresses, addresses[i]);
      ComplaintExactly(p, target.key.port, addresses);
      refused := ValidateRetry(p, resolved, addresses[i]);
      if refused.Some? { return None, refused; }
      if accepts(addresses[i]) {
        assert FirstAccepting(addresses, accepts, i);
        return Some(addresses[i]), None;
      }
    }
    assert addresses[..|addresses|] == addresses;
    r, refused := None, None;
  }

  // ---- The redirect loop ---------------------------------------------------

  datatype Error = Rejected(policy: PolicyError) | Transport

  datatype Hop = Hop(url: Url, resolved: Resolved)

  /** `u8::saturating_add(1)`. */
  function Next(count: byte): byte { if count == 255 then 255 else count + 1 }

  /** One turn of the loop: it ends the run, or sends a request and goes on with another URL. */
  datatype Turn = Stop(outcome: Result<nat, Error>, sent: seq<Hop>) | Go(hop: Hop, next: Url)

  function TurnOf(p: Policy, w: World, auth: Authorization, target: Url, count: byte): (t: Turn)
    ensures t.Go? ==> count < p.maxRedirects
  {
    match Resolve(p, w, target, auth, count)
    case Err(e) => Stop(Err(Rejected(e)), [])
    case Ok(resolved) =>
      var hop := Hop(target, resolved);
      match w.reply(count, target, resolved.addresses)
      case Failed => Stop(Err(Transport), [hop])
      case Answered => Stop(Ok(count), [hop])
      case Moved(None) => Stop(Err(Rejected(InvalidTarget)), [hop])
      case Moved(Some(next)) =>
        match ValidateRedirect(p, w, resolved.target, next, auth, count)
        case Err(e) => Stop(Err(Rejected(e)), [hop])
        case Ok(v) => Go(hop, v.url)
  }

  /** What happens from `target` on, after `count` redirects: the outcome and the requests sent. */
  function Fetch(p: Policy, w: World, auth: Authorization, target: Url, count: byte): (Result<nat, Error>, seq<Hop>)
    decreases 255 - count
  {
    match TurnOf(p, w, auth, target, count)
    case Stop(outcome, sent) => (outcome, sent)
    case Go(hop, next) =>
      var (outcome, hops) := Fetch(p, w, auth, next, Next(count));
      (outcome, [hop] + hops)
  }

  lemma FetchTurn(p: Policy, w: World, auth: Authorization, target: Url, count: byte, hops: seq<Hop>)
    ensures var (outcome, rest) := Fetch(p, w, auth, target, count);
      match TurnOf(p, w, auth, target, count)
      case Stop(outcome', sent) => outcome == outcome' && hops + rest == hops + sent
      case Go(hop, next) =>
        var (outcome', rest') := Fetch(p, w, auth, next, Next(count));
        outcome == outcome' && hops + rest == hops + [hop] + rest'
  {
    hide TurnOf;
    var turn := TurnOf(p, w, auth, target, count);
    if turn.Go? {
      Associate(hops, turn.hop, Fetch(p, w, auth, turn.next, Next(count)).1);
    }
  }

  lemma Associate(hops: seq<Hop>, hop: Hop, rest: seq<Hop>)
    ensures hops + ([hop] + rest) == hops + [hop] + rest
  {
  }

  method RequestHttp(p: Policy, w: World, auth: Authorization, start: Url)
      returns (outcome: Result<nat, Error>, hops: seq<Hop>)
    ensures outcome == Fetch(p, w, auth, start, 0).0 && hops == Fetch(p, w, auth, start, 0).1
  {
    hops := [];
    var target, count: byte := start, 0;
    while true
      invariant Fetch(p, w, auth, start, 0).0 == Fetch(p, w, auth, target, count).0
      invariant Fetch(p, w, auth, start, 0).1 == hops + Fetch(p, w, auth, target, count).1
      decreases 255 - count
    {
      hide Fetch, Resolve, ValidateRedirect;
      FetchTurn(p, w, auth, target, count, hops);
      var resolved := Resolve(p, w, target, auth, count);
      if resolved.Err? { return Err(Rejected(resolved.error)), hops; }
      hops := hops + [Hop(target, resolved.value)];
      var reply := w.reply(count, target, resolved.value.addresses);
      if reply.Failed? { return Err(Transport), hops; }
      if reply.Answered? { return Ok(count), hops; }
      if reply.next.None? { return Err(Rejected(InvalidTarget)), hops; }
      var next := ValidateRedirect(p, w, resolved.value.target, reply.next.value, auth, count);
      if next.Err? { return Err(Rejected(next.error)), hops; }
      target, count := next.value.url, Next(count);
    }
  }

  /**
   * A request the policy approves: an acceptable target, and all the addresses its host was looked up
   * to at this hop, at least one, each with the target's port and permitted.
   */
  ghost predicate SafeHop(p: Policy, w: World, auth: Authorization, h: Hop, hop: nat) {
    var key := h.resolved.target.key;
    && h.resolved.target.url == h.url && Acceptable(p, w, auth, h.url, key)
    && w.lookup(hop, key.host, key.port) == Some(h.resolved.addresses)
    && h.resolved.addresses != []
    && forall x :: x in h.resolved.addresses ==> x.port == key.port && Permitted(p, x.ip)
  }

  lemma ResolvedSafe(p: Policy, w: World, auth: Authorization, target: Url, hop: nat)
    requires Resolve(p, w, target, auth, hop).Ok?
    ensures var r := Resolve(p, w, target, auth, hop).value;
      SafeHop(p, w, auth, Hop(target, r), hop) && ValidateTarget(p, w, target, auth) == Ok(r.target)
  {
    var r := Resolve(p, w, target, auth, hop).value;
    ComplaintExactly(p, r.target.key.port, r.addresses);
    ValidatedExactly(p, w, target, auth, r.target);
    hide Complaint, Acceptable, Permitted, ValidateTarget;
  }

  lemma FollowSafe(p: Policy, w: World, auth: Authorization, from: Url, next: Url, count: byte)
    requires ValidateTarget(p, w, from, auth).Ok?
    requires ValidateRedirect(p, w, ValidateTarget(p, w, from, auth).value, next, auth, count).Ok?
    ensures MayFollow(p, w, auth, from, next) && count < p.maxRedirects
    ensures ValidateRedirect(p, w, ValidateTarget(p, w, from, auth).value, next, auth, count).value.url == next
  {
    hide TargetKey, Permitted;
  }

  /** What one turn sends is approved, and where it goes on is allowed from there. */
  lemma TurnSafe(p: Policy, w: World, auth: Authorization, target: Url, count: byte)
    ensures match TurnOf(p, w, auth, target, count)
      case Stop(outcome, sent) =>
        && |sent| <= 1 && (outcome.Ok? ==> outcome.value == count && |sent| == 1)
        && (sent != [] ==> Sends(p, w, auth, target, sent[0], count))
      case Go(hop, next) => Sends(p, w, auth, target, hop, count) && MayFollow(p, w, auth, target, next)
  {
    var r := Resolve(p, w, target, auth, count);
    if r.Ok? {
      ResolvedSafe(p, w, auth, target, count);
      hide Resolve, SafeHop, MayFollow, ValidateTarget, ValidateRedirect;
      var reply := w.reply(count, target, r.value.addresses);
      if reply.Moved? && reply.next.Some? {
        if ValidateRedirect(p, w, r.value.target, reply.next.value, auth, count).Ok? {
          FollowSafe(p, w, auth, target, reply.next.value, count);
        }
      }
    }
  }

  ghost predicate Sends(p: Policy, w: World, auth: Authorization, target: Url, h: Hop, hop: nat) {
    SafeHop(p, w, auth, h, hop) && h.url == target && ValidateTarget(p, w, target, auth) == Ok(h.resolved.target)
  }

  /** Whether the policy lets a run go on from one target to the next, the number of redirects aside. */
  ghost predicate MayFollow(p: Policy, w: World, auth: Authorization, from: Url, next: Url) {
    && ValidateTarget(p, w, from, auth).Ok? && ValidateTarget(p, w, next, auth).Ok?
    && var (k, k') := (ValidateTarget(p, w, from, auth).value.key, ValidateTarget(p, w, next, auth).value.key);
    && (k.scheme in {Https, Wss} && !p.insecure ==> k'.scheme in {Https, Wss})
    && (!p.crossOrigin ==> k == k')
  }

  /** Every request of every run is approved, and the redirects followed stay within the limit. */
  lemma {:induction false} RequestsApproved(p: Policy, w: World, auth: Authorization, target: Url, count: byte)
    requires count <= p.maxRedirects
    ensures var (outcome, hops) := Fetch(p, w, auth, target, count);
      && |hops| <= p.maxRedirects - count + 1
      && (outcome.Ok? ==> outcome.value + 1 == count + |hops|)
      && (hops != [] ==> hops[0].url == target)
      && forall i :: 0 <= i < |hops| ==> SafeHop(p, w, auth, hops[i], count + i)
    decreases 255 - count
  {
    TurnSafe(p, w, auth, target, count);
    hide SafeHop, MayFollow;
    var turn := TurnOf(p, w, auth, target, count);
    hide TurnOf;
    if turn.Go? {
      RequestsApproved(p, w, auth, turn.next, Next(count));
      var hops, rest := Fetch(p, w, auth, target, count).1, Fetch(p, w, auth, turn.next, Next(count)).1;
      forall i | 0 < i < |hops| ensures SafeHop(p, w, auth, hops[i], count + i) {
        assert hops[i] == rest[i - 1];
      }
    }
  }

  /** Without cross-origin redirects a run never leaves its first origin. */
  lemma {:induction false} OriginKept(p: Policy, w: World, auth: Authorization, target: Url, count: byte)
    requires !p.crossOrigin
    ensures var hops := Fetch(p, w, auth, target, count).1;
      forall i :: 0 <= i < |hops| ==> hops[i].resolved.target.key == hops[0].resolved.target.key
    ensures var hops := Fetch(p, w, auth, target, count).1;
      hops != [] ==> Ok(hops[0].resolved.target) == ValidateTarget(p, w, target, auth)
    decreases 255 - count
  {
    TurnSafe(p, w, auth, target, count);
    hide TurnOf, ValidateTarget;
    var turn := TurnOf(p, w, auth, target, count);
    if turn.Go? {
      OriginKept(p, w, auth, turn.next, Next(count));
    }
  }

  /** Without insecure redirects, once a hop is encrypted every later hop is. */
  lemma {:induction false} SecurityKept(p: Policy, w: World, auth: Authorization, target: Url, count: byte)
    requires !p.insecure
    ensures var hops := Fetch(p, w, auth, target, count).1;
      forall i, j :: 0 <= i <= j < |hops| && hops[i].resolved.target.key.scheme in {Https, Wss} ==>
        hops[j].resolved.target.key.scheme in {Https, Wss}
    ensures var hops := Fetch(p, w, auth, target, count).1;
      hops != [] ==> Ok(hops[0].resolved.target) == ValidateTarget(p, w, target, auth)
    decreases 255 - count
  {
    TurnSafe(p, w, auth, target, count);
    hide TurnOf, ValidateTarget;
    var turn := TurnOf(p, w, auth, target, count);
    if turn.Go? {
      SecurityKept(p, w, auth, turn.next, Next(count));
    }
  }

  /** Why a turn ends the run. */
  lemma TurnStopsExactly(p: Policy, w: World, auth: Authorization, target: Url, count: byte, e: Error)
    ensures var t, r := TurnOf(p, w, auth, target, count), Resolve(p, w, target, auth, count);
      t.Stop? && t.outcome == Err(e) <==>
        if r.Err? then e == Rejected(r.error)
        else
          var reply := w.reply(count, target, r.value.addresses);
          || (reply == Failed && e == Transport)
          || (reply == Moved(None) && e == Rejected(InvalidTarget))
          || (reply.Moved? && reply.next.Some?
              && var v := ValidateRedirect(p, w, r.value.target, reply.next.value, auth, count);
              v.Err? && e == Rejected(v.error))
  {
    hide Resolve, ValidateRedirect;
  }

  /** The run goes through these URLs, each redirecting to the next. */
  ghost predicate Trail(p: Policy, w: World, auth: Authorization, urls: seq<Url>, hop: nat) {
    && urls != []
    && (|urls| > 1 ==>
          && Resolve(p, w, urls[0], auth, hop).Ok? && MayFollow(p, w, auth, urls[0], urls[1])
          && w.reply(hop, urls[0], Resolve(p, w, urls[0], auth, hop).value.addresses) == Moved(Some(urls[1]))
          && Trail(p, w, auth, urls[1..], hop + 1))
  }

  lemma {:induction false} TrailFails(p: Policy, w: World, auth: Authorization, urls: seq<Url>, count: byte, e: Error)
    requires Trail(p, w, auth, urls, count) && count + |urls| - 1 <= p.maxRedirects
    requires var t := TurnOf(p, w, auth, urls[|urls| - 1], count + |urls| - 1); t.Stop? && t.outcome == Err(e)
    ensures Fetch(p, w, auth, urls[0], count).0 == Err(e)
    decreases |urls|
  {
    hide TurnOf, Resolve, MayFollow, ValidateTarget;
    if |urls| > 1 {
      GoesExactly(p, w, auth, urls[0], count, urls[1]);
      assert urls[1..][|urls| - 2] == urls[|urls| - 1];
      TrailFails(p, w, auth, urls[1..], count + 1, e);
    }
  }

  lemma GoFacts(p: Policy, w: World, auth: Authorization, target: Url, count: byte)
    requires TurnOf(p, w, auth, target, count).Go?
    ensures var next, r := TurnOf(p, w, auth, target, count).next, Resolve(p, w, target, auth, count);
      && r.Ok? && w.reply(count, target, r.value.addresses) == Moved(Some(next))
      && MayFollow(p, w, auth, target, next) && count < p.maxRedirects
  {
    TurnSafe(p, w, auth, target, count);
    var turn, r := TurnOf(p, w, auth, target, count), Resolve(p, w, target, auth, count);
    GoesExactly(p, w, auth, target, count, turn.next);
    hide MayFollow, Resolve, ValidateRedirect;
    assert turn.hop == Hop(target, r.value);
  }

  lemma {:induction false} FailedTrail(p: Policy, w: World, auth: Authorization, target: Url, count: byte, e: Error)
      returns (urls: seq<Url>)
    requires count <= p.maxRedirects && Fetch(p, w, auth, target, count).0 == Err(e)
    ensures urls != [] && urls[0] == target && count + |urls| - 1 <= p.maxRedirects
    ensures Trail(p, w, auth, urls, count)
    ensures var t := TurnOf(p, w, auth, urls[|urls| - 1], count + |urls| - 1); t.Stop? && t.outcome == Err(e)
    decreases 255 - count
  {
    hide TurnOf, Resolve, MayFollow;
    var turn := TurnOf(p, w, auth, target, count);
    if turn.Stop? {
      urls := [target];
    } else {
      GoFacts(p, w, auth, target, count);
      var rest := FailedTrail(p, w, auth, turn.next, Next(count), e);
      urls := [target] + rest;
      assert urls[1..] == rest && urls[|urls| - 1] == rest[|rest| - 1];
    }
  }

  /** A request fails with an error exactly when a trail within the limit leads to a turn that ends with it. */
  lemma FailsExactly(p: Policy, w: World, auth: Authorization, start: Url, e: Error)
    ensures Fetch(p, w, auth, start, 0).0 == Err(e) <==>
      exists urls :: FailsAlong(p, w, auth, urls, e) && urls[0] == start
  {
    hide Trail, Fetch, TurnOf;
    if Fetch(p, w, auth, start, 0).0 == Err(e) {
      var urls := FailedTrail(p, w, auth, start, 0, e);
      assert FailsAlong(p, w, auth, urls, e);
    } else {
      forall urls | FailsAlong(p, w, auth, urls, e) && urls[0] == start ensures false {
        TrailFails(p, w, auth, urls, 0, e);
      }
    }
  }

  ghost predicate FailsAlong(p: Policy, w: World, auth: Authorization, urls: seq<Url>, e: Error) {
    && urls != [] && Trail(p, w, auth, urls, 0) && |urls| - 1 <= p.maxRedirects
    && var t := TurnOf(p, w, auth, urls[|urls| - 1], |urls| - 1);
    t.Stop? && t.outcome == Err(e)
  }

  // ---- Which runs are answered ---------------------------------------------

  /** Each URL of the chain resolves and redirects to the next one, and the last one answers. */
  ghost predicate Chain(p: Policy, w: World, auth: Authorization, urls: seq<Url>, hop: nat) {
    && urls != []
    && Resolve(p, w, urls[0], auth, hop).Ok?
    && var reply := w.reply(hop, urls[0], Resolve(p, w, urls[0], auth, hop).value.addresses);
    if |urls| == 1 then reply == Answered
    else
      && reply == Moved(Some(urls[1])) && MayFollow(p, w, auth, urls[0], urls[1])
      && Chain(p, w, auth, urls[1..], hop + 1)
  }

  /** A turn goes on exactly when the reply moves to a URL that may be followed and the limit is not reached. */
  lemma GoesExactly(p: Policy, w: World, auth: Authorization, target: Url, count: byte, next: Url)
    requires Resolve(p, w, target, auth, count).Ok?
    ensures var resolved := Resolve(p, w, target, auth, count).value;
      TurnOf(p, w, auth, target, count) == Go(Hop(target, resolved), next) <==>
        && w.reply(count, target, resolved.addresses) == Moved(Some(next))
        && count < p.maxRedirects && MayFollow(p, w, auth, target, next)
  {
    hide TargetKey, Complaint;
  }

  lemma LastTurn(p: Policy, w: World, auth: Authorization, target: Url, count: byte)
    requires Resolve(p, w, target, auth, count).Ok?
    requires w.reply(count, target, Resolve(p, w, target, auth, count).value.addresses) == Answered
    ensures TurnOf(p, w, auth, target, count).Stop? && TurnOf(p, w, auth, target, count).outcome == Ok(count)
  {
  }

  lemma {:induction false} ChainAnswered(p: Policy, w: World, auth: Authorization, urls: seq<Url>, count: byte)
    requires Chain(p, w, auth, urls, count) && count + |urls| - 1 <= p.maxRedirects
    ensures Fetch(p, w, auth, urls[0], count).0 == Ok(count + |urls| - 1)
    decreases |urls|
  {
    hide TurnOf, Resolve, MayFollow, ValidateTarget;
    if |urls| > 1 {
      GoesExactly(p, w, auth, urls[0], count, urls[1]);
      ChainAnswered(p, w, auth, urls[1..], count + 1);
    } else {
      LastTurn(p, w, auth, urls[0], count);
    }
  }

  lemma {:induction false} AnsweredChain(p: Policy, w: World, auth: Authorization, target: Url, count: byte)
      returns (urls: seq<Url>)
    requires count <= p.maxRedirects && Fetch(p, w, auth, target, count).0.Ok?
    ensures Chain(p, w, auth, urls, count) && urls[0] == target
    ensures Fetch(p, w, auth, target, count).0.value == count + |urls| - 1 <= p.maxRedirects
    decreases 255 - count
  {
    var turn := TurnOf(p, w, auth, target, count);
    if turn.Stop? {
      urls := [target];
    } else {
      GoesExactly(p, w, auth, target, count, turn.next);
      assert turn.hop == Hop(target, Resolve(p, w, target, auth, count).value);
      hide TurnOf, Resolve, MayFollow;
      var rest := AnsweredChain(p, w, auth, turn.next, Next(count));
      urls := [target] + rest;
      assert urls[1..] == rest;
    }
  }

  /** A request is answered after `r` redirects exactly when an approved chain of `r + 1` URLs leads to an answer. */
  lemma AnsweredExactly(p: Policy, w: World, auth: Authorization, start: Url, r: nat)
    ensures Fetch(p, w, auth, start, 0).0 == Ok(r) <==>
      r <= p.maxRedirects && exists urls :: |urls| == r + 1 && urls[0] == start && Chain(p, w, auth, urls, 0)
  {
    hide Chain, Fetch;
    if Fetch(p, w, auth, start, 0).0 == Ok(r) {
      var urls := AnsweredChain(p, w, auth, start, 0);
      assert |urls| == r + 1 && urls[0] == start && Chain(p, w, auth, urls, 0);
    } else if r <= p.maxRedirects {
      forall urls | |urls| == r + 1 && urls[0] == start ensures !Chain(p, w, auth, urls, 0) {
        if Chain(p, w, auth, urls, 0) {
          ChainAnswered(p, w, auth, urls, 0);
        }
      }
    }
  }

  // ---- The response body ---------------------------------------------------

  function Joined(chunks: seq<seq<byte>>): seq<byte> {
    if chunks == [] then [] else Joined(chunks[..|chunks| - 1]) + chunks[|chunks| - 1]
  }

  lemma {:induction false} JoinedGrows(chunks: seq<seq<byte>>, k: nat)
    requires k <= |chunks|
    ensures |Joined(chunks[..k])| <= |Joined(chunks)|
    decreases |chunks|
  {
    if k == |chunks| {
      assert chunks[..k] == chunks;
    } else {
      assert chunks[..|chunks| - 1][..k] == chunks[..k];
      JoinedGrows(chunks[..|chunks| - 1], k);
    }
  }

  /**
   * The body is delivered whole exactly when neither its announced nor its actual size passes the
   * limit and the connection does not break before its end.
   */
  method ReadBody(p: Policy, announced: Option<u64>, chunks: seq<seq<byte>>, breaks: bool)
      returns (r: Result<seq<byte>, Error>)
    ensures r ==
      if (announced.Some? && announced.value > p.maxResponse) || |Joined(chunks)| > p.maxResponse
      then Err(Rejected(ResponseLimitExceeded))
      else if breaks then Err(Transport)
      else Ok(Joined(chunks))
  {
    if announced.Some? && announced.value > p.maxResponse { return Err(Rejected(ResponseLimitExceeded)); }
    var body: seq<byte> := [];
    for i := 0 to |chunks|
      invariant body == Joined(chunks[..i]) && |body| <= p.maxResponse
    {
      assert chunks[..i + 1][..i] == chunks[..i];
      JoinedGrows(chunks, i + 1);
      if |body| + |chunks[i]| > p.maxResponse { return Err(Rejected(ResponseLimitExceeded)); }
      body := body + chunks[i];
    }
    assert chunks[..|chunks|] == chunks;
    if breaks { return Err(Transport); }
    r := Ok(body);
  }
}
