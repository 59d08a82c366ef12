// Forward rules: defaults, what is saved, what validation accepts, and who may activate a reverse address.
module ReverseConfig {
  import opened Collections
  import opened HostPort
  import opened Text

  const CLIENT_TO_SERVER := "client_to_server"
  const SERVER_TO_CLIENT := "server_to_client"

  datatype Forward = Forward(name: string, direction: string, listenAddr: string, listenPort: int,
                             serverTarget: string, allowedUsers: seq<string>)

  /** validateReverseListenFields */
  predicate ValidListenFields(f: Forward) {
    || Trim(f.direction) != SERVER_TO_CLIENT
    || (&& 0 <= f.listenPort <= 65535
        && (|| Trim(f.listenAddr) == ""
            || (var parts := SplitPort(f.listenAddr);
                parts.Some? && parts.value.0 == LOOPBACK && (f.listenPort == 0 || f.listenPort == parts.value.1))))
  }

  /** Which listen fields go together: with an address of its own a rule may leave the port out or repeat it, without
      one any port does; other rules have no listen fields to speak of. */
  lemma ListenFieldsMean(f: Forward, port: nat)
    ensures Trim(f.direction) != "server_to_client" ==> ValidListenFields(f)
    ensures Trim(f.direction) == "server_to_client" && Trim(f.listenAddr) == "" ==>
              (ValidListenFields(f) <==> 0 <= f.listenPort <= 65535)
    ensures Trim(f.direction) == "server_to_client" && f.listenAddr == LoopbackAddr(port) ==>
              (ValidListenFields(f) <==> 1 <= port <= 65535 && f.listenPort in {0, port})
    ensures Trim(f.direction) == "server_to_client" && Trim(f.listenAddr) != "" && ValidListenFields(f) ==>
              exists p :: 1 <= p <= 65535 && SplitPort(f.listenAddr) == Some(("127.0.0.1", p)) && f.listenPort in {0, p}
  {
    LoopbackIsCanonical(port);
    LoopbackBeyondRange(port);
    SplitPortRange(f.listenAddr);
    hide Trim, SplitPort, LoopbackAddr;
    if Trim(f.direction) == "server_to_client" && Trim(f.listenAddr) != "" && ValidListenFields(f) {
      var p := SplitPort(f.listenAddr).value.1;
      assert SplitPort(f.listenAddr) == Some(("127.0.0.1", p));
    }
  }

  lemma LoopbackBeyondRange(port: nat)
    ensures !(1 <= port <= 65535) ==> SplitPort(LoopbackAddr(port)).None?
  {
    LoopbackSplits(port);
    AtoiOfItoa(port);
    hide Trim, SplitHostPort, Itoa, Atoi, TrimBrackets, LoopbackAddr;
  }

  /** normalizeReverseListenPort */
  function NormalizedPort(f: Forward): Forward {
    if f.direction != SERVER_TO_CLIENT || !ValidListenFields(f) then f
    else
      var port :=
        if f.listenPort == 0 && Trim(f.listenAddr) != "" then
          match SplitPort(f.listenAddr) case Some(parts) => parts.1 case None => 0
        else f.listenPort;
      if 0 < port <= 65535 then f.(listenPort := port, listenAddr := LoopbackAddr(port)) else f.(listenPort := port)
  }

  /** The forward part of ApplyDefaults. */
  function WithDefaults(f: Forward): Forward {
    var direction := if Trim(f.direction) == "" then CLIENT_TO_SERVER else Trim(f.direction);
    NormalizedPort(f.(direction := direction))
  }

  /** configForSave, one forward. */
  function ForSave(f: Forward): Forward {
    if f.direction == SERVER_TO_CLIENT && f.listenPort > 0 then f.(listenAddr := "") else f
  }

  /** A reverse rule after defaults, if its fields are consistent: a port with its one address, or neither. */
  ghost predicate Settled(f: Forward) {
    f.direction == SERVER_TO_CLIENT && ValidListenFields(f) ==>
      (0 < f.listenPort <= 65535 && f.listenAddr == LoopbackAddr(f.listenPort))
      || (f.listenPort == 0 && Trim(f.listenAddr) == "")
  }

  lemma DirectionsAreTrimmed()
    ensures Trim(CLIENT_TO_SERVER) == CLIENT_TO_SERVER && Trim(SERVER_TO_CLIENT) == SERVER_TO_CLIENT
    ensures Trim("") == ""
  {
    TrimOfTrimmed(CLIENT_TO_SERVER);
    TrimOfTrimmed(SERVER_TO_CLIENT);
    TrimOfTrimmed("");
  }

  lemma TrimTwice(s: string)
    ensures Trim(Trim(s)) == Trim(s)
  {
    TrimTrims(s);
    TrimOfTrimmed(Trim(s));
  }

  lemma SplitPortRange(s: string)
    ensures SplitPort(s).Some? ==> 0 < SplitPort(s).value.1 <= 65535
  {
  }

  lemma NormalizedPortSettles(f: Forward)
    requires Trim(f.direction) == f.direction
    ensures var n := NormalizedPort(f);
            && Settled(n) && NormalizedPort(n) == n && n == f.(listenPort := n.listenPort, listenAddr := n.listenAddr)
            && (ValidListenFields(n) <==> ValidListenFields(f))
            && (!ValidListenFields(f) ==> n == f)
            && (f.listenPort > 0 ==> n.listenPort == f.listenPort)
  {
    hide Trim, SplitPort, LoopbackAddr;
    SplitPortRange(f.listenAddr);
    if f.direction == SERVER_TO_CLIENT && ValidListenFields(f) {
      var n := NormalizedPort(f);
      if n.listenPort == 0 {
        assert f.listenPort == 0 && Trim(f.listenAddr) == "" && n == f;
      } else {
        LoopbackIsCanonical(n.listenPort);
        assert n == f.(listenPort := n.listenPort, listenAddr := LoopbackAddr(n.listenPort));
        assert ValidListenFields(n);
      }
    }
  }

  lemma BlankDoesNotSplit(s: string)
    ensures Trim(s) == "" ==> SplitPort(s).None?
  {
  }

  lemma DefaultsSettle(f: Forward)
    ensures var d := WithDefaults(f);
            && Settled(d) && Trim(d.direction) == d.direction != "" && NormalizedPort(d) == d
            && d.name == f.name && d.serverTarget == f.serverTarget && d.allowedUsers == f.allowedUsers
            && (d.direction == SERVER_TO_CLIENT <==> Trim(f.direction) == SERVER_TO_CLIENT)
            && (!ValidListenFields(f) ==> d.listenPort == f.listenPort && d.listenAddr == f.listenAddr)
            && (f.listenPort > 0 ==> d.listenPort > 0)
    ensures ValidListenFields(WithDefaults(f)) <==> ValidListenFields(f)
  {
    DirectionsAreTrimmed();
    TrimTwice(f.direction);
    var g := f.(direction := if Trim(f.direction) == "" then CLIENT_TO_SERVER else Trim(f.direction));
    NormalizedPortSettles(g);
    assert ValidListenFields(g) <==> ValidListenFields(f);
    hide NormalizedPort, Trim, SplitPort, ValidListenFields, Settled;
  }

  /** What the defaults are: the client-to-server direction, and for a reverse rule with consistent fields the port of
      its address and the address of its port. Nothing else changes. */
  lemma DefaultsMean(f: Forward)
    ensures var d, direction := WithDefaults(f), Trim(f.direction);
            && d == f.(direction := d.direction, listenPort := d.listenPort, listenAddr := d.listenAddr)
            && d.direction == (if direction == "" then "client_to_server" else direction)
            && (direction != "server_to_client" || !ValidListenFields(f) ==>
                  d.listenPort == f.listenPort && d.listenAddr == f.listenAddr)
            && (direction == "server_to_client" && ValidListenFields(f) && f.listenPort > 0 ==>
                  d.listenPort == f.listenPort && d.listenAddr == LoopbackAddr(f.listenPort))
            && (direction == "server_to_client" && ValidListenFields(f) && f.listenPort == 0 && Trim(f.listenAddr) != "" ==>
                  && SplitPort(f.listenAddr) == Some(("127.0.0.1", d.listenPort))
                  && d.listenAddr == LoopbackAddr(d.listenPort))
            && (direction == "server_to_client" && f.listenPort == 0 && Trim(f.listenAddr) == "" ==>
                  d.listenPort == 0 && d.listenAddr == f.listenAddr)
  {
    DirectionsAreTrimmed();
    TrimTwice(f.direction);
    SplitPortRange(f.listenAddr);
    hide Trim, SplitPort, LoopbackAddr;
  }

  /** Saving leaves out the address of a reverse rule with a port, and nothing else. */
  lemma SavingMeans(f: Forward)
    ensures ForSave(f) == f || ForSave(f) == f.(listenAddr := "")
    ensures f.direction == "server_to_client" && f.listenPort > 0 ==> ForSave(f).listenAddr == ""
    ensures f.direction != "server_to_client" || f.listenPort <= 0 ==> ForSave(f) == f
  {
  }

  /** Applying the defaults a second time changes nothing. */
  lemma DefaultsAreIdempotent(f: Forward)
    ensures WithDefaults(WithDefaults(f)) == WithDefaults(f)
  {
    DefaultsSettle(f);
    hide NormalizedPort, Trim;
  }

  /** Defaults restore what saving left out exactly when the listen fields are consistent, there is no port to
      keep, or there was no address to lose. */
  lemma DefaultsUndoSaveIff(f: Forward)
    ensures WithDefaults(ForSave(WithDefaults(f))) == WithDefaults(f) <==>
            ValidListenFields(f) || f.listenPort <= 0 || (f.listenPort > 65535 && f.listenAddr == "")
  {
    DefaultsSettle(f);
    var d := WithDefaults(f);
    if d.direction == SERVER_TO_CLIENT && d.listenPort > 0 {
      SavedPortComesBack(d);
    } else {
      DefaultsAreIdempotent(f);
    }
    hide WithDefaults, Trim, SplitPort, ForSave;
    assert Trim(f.direction) != SERVER_TO_CLIENT ==> ValidListenFields(f);
  }

  /** A rule with a port and no address gets the canonical address of that port. */
  lemma SavedPortComesBack(d: Forward)
    requires d.direction == SERVER_TO_CLIENT && d.listenPort > 0 && NormalizedPort(d) == d && Settled(d)
    ensures WithDefaults(ForSave(d)) == d <==> ValidListenFields(d) || (d.listenPort > 65535 && d.listenAddr == "")
  {
    DirectionsAreTrimmed();
    LoopbackIsCanonical(d.listenPort);
    var saved := d.(listenAddr := "");
    hide Trim, SplitPort, LoopbackAddr;
    assert ForSave(d) == saved;
    assert WithDefaults(saved) == NormalizedPort(saved);
    assert d.listenPort <= 65535 ==> NormalizedPort(saved) == d.(listenAddr := LoopbackAddr(d.listenPort));
    assert d.listenPort > 65535 ==> NormalizedPort(saved) == saved;
  }

  function AllWithDefaults(forwards: seq<Forward>): seq<Forward> {
    seq(|forwards|, i requires 0 <= i < |forwards| => WithDefaults(forwards[i]))
  }

  /** The loop of ApplyDefaults, in place. */
  method ApplyDefaults(forwards: array<Forward>)
    modifies forwards
    ensures forwards[..] == AllWithDefaults(old(forwards[..]))
  {
    hide WithDefaults;
    for i := 0 to forwards.Length
      invariant forall j | 0 <= j < i :: forwards[j] == WithDefaults(old(forwards[j]))
      invariant forall j | i <= j < forwards.Length :: forwards[j] == old(forwards[j])
    {
      forwards[i] := WithDefaults(forwards[i]);
    }
  }

  /** The loop of configForSave, in place. */
  method ConfigForSave(forwards: array<Forward>)
    modifies forwards
    ensures forall j | 0 <= j < forwards.Length :: forwards[j] == ForSave(old(forwards[j]))
  {
    for i := 0 to forwards.Length
      invariant forall j | 0 <= j < i :: forwards[j] == ForSave(old(forwards[j]))
      invariant forall j | i <= j < forwards.Length :: forwards[j] == old(forwards[j])
    {
      forwards[i] := ForSave(forwards[i]);
    }
  }

  /** Every endpoint is spelled without an alias of the loopback address. */
  ghost predicate LoopbackSpelled(listenAddr: string, monitorAddr: string, forwards: seq<Forward>,
                                  spelled: string -> bool)
  {
    && spelled(listenAddr) && spelled(monitorAddr)
    && forall f | f in forwards :: spelled(f.listenAddr) && spelled(f.serverTarget)
  }

  /** validateLoopbackAddresses; spelled is CheckLoopbackEndpoint. */
  method ValidateLoopbackAddresses(listenAddr: string, monitorAddr: string, forwards: seq<Forward>,
                                   spelled: string -> bool) returns (ok: bool)
    ensures ok <==> LoopbackSpelled(listenAddr, monitorAddr, forwards, spelled)
  {
    if !spelled(listenAddr) || !spelled(monitorAddr) {
      return false;
    }
    for i := 0 to |forwards|
      invariant forall j | 0 <= j < i :: spelled(forwards[j].listenAddr) && spelled(forwards[j].serverTarget)
    {
      if !spelled(forwards[i].listenAddr) || !spelled(forwards[i].serverTarget) {
        return false;
      }
    }
    return true;
  }

  /** The forwards SaveConfig writes: the caller's own are left alone, and loading what was written gives the
      caller's configuration with its defaults. It refuses aliases of the loopback address and inconsistent listen
      fields, and nothing else. */
  method SaveConfig(listenAddr: string, monitorAddr: string, forwards: array<Forward>, spelled: string -> bool)
    returns (ok: bool, written: seq<Forward>)
    ensures ok <==> LoopbackSpelled(listenAddr, monitorAddr, forwards[..], spelled)
                    && forall f | f in forwards[..] :: ValidListenFields(f)
    ensures ok ==> AllWithDefaults(written) == AllWithDefaults(forwards[..])
    ensures ok ==> |written| == forwards.Length
    ensures ok ==> forall f | f in written :: f.direction == SERVER_TO_CLIENT ==> f.listenAddr == "" || f.listenPort == 0
  {
    hide ValidListenFields, WithDefaults, LoopbackSpelled;
    written := [];
    var loopbackOk := ValidateLoopbackAddresses(listenAddr, monitorAddr, forwards[..], spelled);
    if !loopbackOk {
      return false, written;
    }
    for i := 0 to forwards.Length
      invariant forall j | 0 <= j < i :: ValidListenFields(forwards[j])
    {
      if !ValidListenFields(forwards[i]) {
        return false, written;
      }
    }
    var copy := new Forward[forwards.Length](i requires 0 <= i < forwards.Length reads forwards => forwards[i]);
    assert copy[..] == forwards[..];
    ApplyDefaults(copy);
    ConfigForSave(copy);
    forall i | 0 <= i < forwards.Length
      ensures WithDefaults(copy[i]) == WithDefaults(forwards[i])
      ensures copy[i].direction == SERVER_TO_CLIENT ==> copy[i].listenAddr == "" || copy[i].listenPort == 0
    {
      DefaultsUndoSaveIff(forwards[i]);
      SavedFields(forwards[i]);
    }
    return true, copy[..];
  }

  lemma SavedFields(f: Forward)
    requires ValidListenFields(f)
    ensures var s := ForSave(WithDefaults(f));
            s.direction == SERVER_TO_CLIENT ==> s.listenAddr == "" || s.listenPort == 0
  {
    DefaultsSettle(f);
    hide WithDefaults;
  }

  function DirectionOf(f: Forward): string {
    if Trim(f.direction) == "" then CLIENT_TO_SERVER else Trim(f.direction)
  }

  function ReversePort(f: Forward): int {
    if f.listenPort > 0 then f.listenPort
    else match SplitPort(f.listenAddr) case Some(parts) => parts.1 case None => 0
  }

  /** What validation asks of one rule's users. */
  ghost predicate UsersOk(users: seq<string>, known: set<string>) {
    && users != []
    && (forall u | u in users :: Trim(u) != "" && Trim(u) in known)
    && forall i, j | 0 <= i < j < |users| :: Trim(users[i]) != Trim(users[j])
  }

  predicate EndpointsOk(f: Forward, targetHost: string -> bool) {
    if DirectionOf(f) == CLIENT_TO_SERVER then
      var parts := SplitPort(f.serverTarget);
      parts.Some? && targetHost(parts.value.0)
    else
      && DirectionOf(f) == SERVER_TO_CLIENT
      && ValidListenFields(f)
      && (f.listenPort <= 0 ==> SplitPort(f.listenAddr).Some? && SplitPort(f.listenAddr).value.0 == LOOPBACK)
      && 1 <= ReversePort(f) <= 65535
      && (Trim(f.listenAddr) != "" ==> SplitPort(f.listenAddr).Some? && SplitPort(f.listenAddr).value.0 == LOOPBACK)
  }

  /** Which endpoints are accepted: of a client-to-server rule a target with a port, on a host that may be a target;
      of a reverse rule one port, given as such or by a loopback address, or by both alike. There is no other
      direction. */
  lemma EndpointsMean(f: Forward, targetHost: string -> bool)
    ensures Trim(f.direction) in {"", "client_to_server"} ==>
              (EndpointsOk(f, targetHost) <==>
               SplitPort(f.serverTarget).Some? && targetHost(SplitPort(f.serverTarget).value.0))
    ensures Trim(f.direction) == "server_to_client" ==>
              (EndpointsOk(f, targetHost) <==>
               && 1 <= ReversePort(f) <= 65535 && f.listenPort in {0, ReversePort(f)}
               && (Trim(f.listenAddr) == "" ==> f.listenPort == ReversePort(f))
               && (Trim(f.listenAddr) != "" ==> SplitPort(f.listenAddr) == Some(("127.0.0.1", ReversePort(f)))))
    ensures Trim(f.direction) !in {"", "client_to_server", "server_to_client"} ==> !EndpointsOk(f, targetHost)
  {
    SplitPortRange(f.listenAddr);
    BlankDoesNotSplit(f.listenAddr);
    hide Trim, SplitPort;
  }

  /** The port of a reverse rule is what it listens on. */
  lemma ReversePortMeans(f: Forward, port: nat)
    requires 1 <= port <= 65535
    ensures f.listenPort == port ==> ReversePort(f) == port
    ensures f.listenPort <= 0 && f.listenAddr == LoopbackAddr(port) ==> ReversePort(f) == port
    ensures f.listenPort <= 0 && Trim(f.listenAddr) == "" ==> ReversePort(f) == 0
  {
    LoopbackIsCanonical(port);
    BlankDoesNotSplit(f.listenAddr);
    hide Trim, SplitPort, LoopbackAddr;
  }

  predicate IsReverse(f: Forward) {
    DirectionOf(f) == SERVER_TO_CLIENT
  }

  ghost predicate RuleOk(f: Forward, known: set<string>, targetHost: string -> bool) {
    EndpointsOk(f, targetHost) && UsersOk(f.allowedUsers, known) && (IsReverse(f) ==> |f.allowedUsers| == 1)
  }

  ghost predicate Accepted(forwards: seq<Forward>, known: set<string>, targetHost: string -> bool) {
    && (forall f | f in forwards :: RuleOk(f, known, targetHost))
    && forall i, j | 0 <= i < j < |forwards| && IsReverse(forwards[i]) && IsReverse(forwards[j]) ::
         ReversePort(forwards[i]) != ReversePort(forwards[j])
  }

  method ValidateUsers(users: seq<string>, known: set<string>) returns (ok: bool, count: nat)
    ensures ok <==> UsersOk(users, known)
    ensures ok ==> count == |users|
  {
    hide Trim;
    var allowed: set<string> := {};
    for i := 0 to |users|
      invariant allowed == set j | 0 <= j < i :: Trim(users[j])
      invariant |allowed| == i
      invariant forall j | 0 <= j < i :: Trim(users[j]) != "" && Trim(users[j]) in known
      invariant forall j, k | 0 <= j < k < i :: Trim(users[j]) != Trim(users[k])
    {
      var username := Trim(users[i]);
      assert users[i] in users;
      if username == "" || username in allowed || username !in known {
        return false, 0;
      }
      allowed := allowed + {username};
    }
    return |allowed| > 0, |allowed|;
  }

  /** The forward loop of ValidateConfig. */
  method ValidateForwards(forwards: seq<Forward>, known: set<string>, targetHost: string -> bool) returns (ok: bool)
    ensures ok <==> Accepted(forwards, known, targetHost)
  {
    hide EndpointsOk, UsersOk, ReversePort, DirectionOf, ValidListenFields;
    var seenReversePorts: map<int, string> := map[];
    for i := 0 to |forwards|
      invariant Accepted(forwards[..i], known, targetHost)
      invariant seenReversePorts.Keys == set j | 0 <= j < i && IsReverse(forwards[j]) :: ReversePort(forwards[j])
    {
      var f := forwards[i];
      assert f in forwards && forwards[..i + 1] == forwards[..i] + [f];
      if !EndpointsOk(f, targetHost) {
        return false;
      }
      var usersOk, count := ValidateUsers(f.allowedUsers, known);
      if !usersOk {
        return false;
      }
      if IsReverse(f) {
        if count != 1 {
          return false;
        }
        var port := ReversePort(f);
        if port in seenReversePorts {
          var j :| 0 <= j < i && IsReverse(forwards[j]) && ReversePort(forwards[j]) == port;
          return false;
        }
        seenReversePorts := seenReversePorts[port := f.name];
      }
    }
    assert forwards[..|forwards|] == forwards;
    return true;
  }

  datatype User = User(username: string, passwordHash: string, disabled: bool)

  datatype SealKey = SealKey(keyID: string, privateKeyFile: string, publicKeyFile: string, expiresAt: string,
                             active: bool)

  /** What ValidateConfig looks at; versionOk is the answer of ValidateConfigVersion. */
  datatype Config = Config(versionOk: bool, listenAddr: string, monitorAddr: string, certFile: string, keyFile: string,
                           users: seq<User>, forwards: seq<Forward>, sealKeys: seq<SealKey>)

  function Names(users: seq<User>): set<string> {
    set i | 0 <= i < |users| :: Trim(users[i].username)
  }

  lemma NamesMean(users: seq<User>)
    ensures forall name :: name in Names(users) <==> exists u | u in users :: Trim(u.username) == name
  {
    hide Trim;
    forall u | u in users
      ensures Trim(u.username) in Names(users)
    {
      var i :| 0 <= i < |users| && users[i] == u;
    }
  }

  ghost predicate UsersAccepted(users: seq<User>) {
    && (forall u | u in users ::
          Trim(u.username) != "" && (u.disabled || Trim(u.passwordHash) != ""))
    && forall i, j | 0 <= i < j < |users| :: Trim(users[i].username) != Trim(users[j].username)
  }

  predicate SealKeyOk(k: SealKey, dated: string -> bool) {
    && Trim(k.keyID) != "" && Trim(k.privateKeyFile) != "" && Trim(k.publicKeyFile) != ""
    && Trim(k.expiresAt) != "" && dated(Trim(k.expiresAt))
  }

  ghost predicate SealKeysAccepted(keys: seq<SealKey>, dated: string -> bool) {
    && (forall k | k in keys :: SealKeyOk(k, dated))
    && (forall i, j | 0 <= i < j < |keys| :: Trim(keys[i].keyID) != Trim(keys[j].keyID))
    && forall i, j | 0 <= i < j < |keys| :: !(keys[i].active && keys[j].active)
  }

  predicate MonitorOk(monitorAddr: string) {
    Trim(monitorAddr) != "" ==> SplitPort(Trim(monitorAddr)).Some? && SplitPort(Trim(monitorAddr)).value.0 == LOOPBACK
  }

  /** A monitor address is left out or on the loopback host. */
  lemma MonitorMeans(monitorAddr: string, host: string, port: nat)
    requires NoBrackets(host) && Trimmed(JoinHostPort(host, Itoa(port)))
    ensures Trim(monitorAddr) == "" ==> MonitorOk(monitorAddr)
    ensures monitorAddr == JoinHostPort(host, Itoa(port)) ==>
              (MonitorOk(monitorAddr) <==> host == "127.0.0.1" && 1 <= port <= 65535)
    ensures Trim(monitorAddr) != "" && ':' !in Trim(monitorAddr) ==> !MonitorOk(monitorAddr)
  {
    SplitPortMeans(host, port);
    TrimOfTrimmed(JoinHostPort(host, Itoa(port)));
    TrimTwice(monitorAddr);
    if ':' !in Trim(monitorAddr) {
      NoColonNoSplit(Trim(monitorAddr));
    }
    assert JoinHostPort(host, Itoa(port)) != "";
    hide Trim, SplitHostPort, JoinHostPort, Itoa;
  }

  /** A sealing key is complete exactly if nothing of it is blank and its date is one. */
  lemma SealKeyMeans(k: SealKey, dated: string -> bool)
    ensures SealKeyOk(k, dated) <==>
            !Blank(k.keyID) && !Blank(k.privateKeyFile) && !Blank(k.publicKeyFile) && !Blank(k.expiresAt)
            && dated(Trim(k.expiresAt))
  {
    TrimTrims(k.keyID);
    TrimTrims(k.privateKeyFile);
    TrimTrims(k.publicKeyFile);
    TrimTrims(k.expiresAt);
    hide Trim, Blank;
  }

  /** spelled is CheckLoopbackEndpoint, targetHost IsForwardTargetHost, and dated accepts the texts of RFC 3339. */
  ghost predicate ConfigAccepted(cfg: Config, spelled: string -> bool, targetHost: string -> bool,
                                 dated: string -> bool)
  {
    && cfg.versionOk && LoopbackSpelled(cfg.listenAddr, cfg.monitorAddr, cfg.forwards, spelled)
    && Trim(cfg.certFile) != "" && Trim(cfg.keyFile) != "" && MonitorOk(cfg.monitorAddr)
    && UsersAccepted(cfg.users) && Accepted(cfg.forwards, Names(cfg.users), targetHost)
    && SealKeysAccepted(cfg.sealKeys, dated)
  }

  method ValidateKnownUsers(users: seq<User>) returns (ok: bool, known: set<string>)
    ensures ok <==> UsersAccepted(users)
    ensures ok ==> known == Names(users)
    ensures ok ==> forall name :: name in known <==> exists u | u in users :: Trim(u.username) == name
  {
    hide Trim;
    known := {};
    for i := 0 to |users|
      invariant known == set j | 0 <= j < i :: Trim(users[j].username)
      invariant UsersAccepted(users[..i])
    {
      var name := Trim(users[i].username);
      assert users[i] in users && users[..i + 1] == users[..i] + [users[i]];
      if name == "" || name in known || (!users[i].disabled && Trim(users[i].passwordHash) == "") {
        return false, known;
      }
      known := known + {name};
    }
    assert users[..|users|] == users;
    NamesMean(users);
    return true, known;
  }

  method ValidateSealKeys(keys: seq<SealKey>, dated: string -> bool) returns (ok: bool)
    ensures ok <==> SealKeysAccepted(keys, dated)
  {
    hide Trim, SealKeyOk, Active;
    var activeKeys := 0;
    var keyIDs: set<string> := {};
    assert Active(keys[..0]) == [] by {
      EmptyHasNoActive();
    }
    for i := 0 to |keys|
      invariant keyIDs == set j | 0 <= j < i :: Trim(keys[j].keyID)
      invariant forall j | 0 <= j < i :: SealKeyOk(keys[j], dated)
      invariant forall j, k | 0 <= j < k < i :: Trim(keys[j].keyID) != Trim(keys[k].keyID)
      invariant activeKeys == |Active(keys[..i])|
    {
      var key := keys[i];
      assert key in keys && keys[..i + 1] == keys[..i] + [key];
      ActiveOfOne(keys[..i], key);
      var id := Trim(key.keyID);
      if !SealKeyOk(key, dated) || id in keyIDs {
        return false;
      }
      keyIDs := keyIDs + {id};
      if key.active {
        activeKeys := activeKeys + 1;
      }
    }
    assert keys[..|keys|] == keys;
    AtMostOneActive(keys);
    return activeKeys <= 1;
  }

  lemma EmptyHasNoActive()
    ensures Active([]) == []
  {
  }

  ghost function Active(keys: seq<SealKey>): seq<SealKey> {
    if keys == [] then []
    else Active(keys[..|keys| - 1]) + if keys[|keys| - 1].active then [keys[|keys| - 1]] else []
  }

  lemma ActiveOfOne(keys: seq<SealKey>, key: SealKey)
    ensures Active(keys + [key]) == Active(keys) + if key.active then [key] else []
  {
    assert (keys + [key])[..|keys|] == keys;
  }

  lemma {:induction false} AtMostOneActive(keys: seq<SealKey>)
    ensures |Active(keys)| <= 1 <==> forall i, j | 0 <= i < j < |keys| :: !(keys[i].active && keys[j].active)
    ensures |Active(keys)| == 0 <==> forall i | 0 <= i < |keys| :: !keys[i].active
  {
    if keys != [] {
      AtMostOneActive(keys[..|keys| - 1]);
      assert forall i | 0 <= i < |keys| - 1 :: keys[..|keys| - 1][i] == keys[i];
    }
  }

  /** ValidateConfig */
  method ValidateConfig(cfg: Config, spelled: string -> bool, targetHost: string -> bool, dated: string -> bool)
    returns (ok: bool)
    ensures ok <==> ConfigAccepted(cfg, spelled, targetHost, dated)
  {
    hide LoopbackSpelled, UsersAccepted, Accepted, SealKeysAccepted, MonitorOk, Trim, Names;
    if !cfg.versionOk {
      return false;
    }
    ok := ValidateLoopbackAddresses(cfg.listenAddr, cfg.monitorAddr, cfg.forwards, spelled);
    if !ok || Trim(cfg.certFile) == "" || Trim(cfg.keyFile) == "" || !MonitorOk(cfg.monitorAddr) {
      return false;
    }
    var known;
    ok, known := ValidateKnownUsers(cfg.users);
    if !ok {
      return;
    }
    ok := ValidateForwards(cfg.forwards, known, targetHost);
    if !ok {
      return;
    }
    ok := ValidateSealKeys(cfg.sealKeys, dated);
  }

  /** configuredReverseListenAddr */
  function ConfiguredAddr(f: Forward): string {
    if Trim(f.listenAddr) != "" then Trim(f.listenAddr)
    else if 0 < f.listenPort <= 65535 then LoopbackAddr(f.listenPort)
    else ""
  }

  /** The rule is about this address, which is compared in its normal spelling. */
  predicate Covers(f: Forward, addr: string) {
    && Trim(f.direction) == SERVER_TO_CLIENT && ConfiguredAddr(f) != ""
    && NormalTarget(ConfiguredAddr(f)) == NormalTarget(addr)
  }

  ghost predicate Allows(f: Forward, username: string) {
    exists u | u in f.allowedUsers :: Trim(u) == Trim(username)
  }

  /** Some rule gives the user this address. */
  ghost predicate Granted(forwards: seq<Forward>, username: string, addr: string) {
    exists f | f in forwards :: Covers(f, addr) && Allows(f, username)
  }

  /** An accepted reverse rule that has been given its defaults has one port and that port's canonical address. */
  lemma AcceptedRuleIsCanonical(f: Forward, known: set<string>, targetHost: string -> bool)
    requires RuleOk(WithDefaults(f), known, targetHost)
    requires Trim(WithDefaults(f).direction) == SERVER_TO_CLIENT
    ensures var d := WithDefaults(f);
            && 0 < d.listenPort <= 65535 && d.listenAddr == LoopbackAddr(d.listenPort)
            && ReversePort(d) == d.listenPort && ConfiguredAddr(d) == d.listenAddr
            && NormalTarget(ConfiguredAddr(d)) == d.listenAddr && |d.allowedUsers| == 1
    ensures ConfiguredAddr(ForSave(WithDefaults(f))) == ConfiguredAddr(WithDefaults(f))
  {
    DefaultsSettle(f);
    DirectionsAreTrimmed();
    var d := WithDefaults(f);
    if d.listenPort > 0 {
      LoopbackIsCanonical(d.listenPort);
    }
    BlankDoesNotSplit(d.listenAddr);
    hide Trim, SplitPort, LoopbackAddr, NormalTarget, WithDefaults;
  }

  /** In an accepted configuration no two reverse rules cover the same address. */
  lemma AddressHasOneRule(forwards: seq<Forward>, known: set<string>, targetHost: string -> bool, addr: string,
                          i: nat, j: nat)
    requires Accepted(AllWithDefaults(forwards), known, targetHost) && i < |forwards| && j < |forwards|
    requires Covers(AllWithDefaults(forwards)[i], addr) && Covers(AllWithDefaults(forwards)[j], addr)
    ensures i == j
  {
    var ds := AllWithDefaults(forwards);
    assert ds[i] in ds && ds[j] in ds;
    DirectionsAreTrimmed();
    AcceptedRuleIsCanonical(forwards[i], known, targetHost);
    AcceptedRuleIsCanonical(forwards[j], known, targetHost);
    hide WithDefaults, RuleOk, Trim, NormalTarget, LoopbackAddr, ReversePort;
    LoopbackIsInjective(ds[i].listenPort, ds[j].listenPort);
  }

  /** allowedUser */
  method AllowedUser(users: seq<string>, username: string) returns (allowed: bool)
    ensures allowed <==> exists u | u in users :: Trim(u) == username
  {
    hide Trim;
    for i := 0 to |users|
      invariant forall j | 0 <= j < i :: Trim(users[j]) != username
    {
      if Trim(users[i]) == username {
        return true;
      }
    }
    return false;
  }

  /** authorizeReverse: the first rule for the address decides. */
  method AuthorizeReverse(forwards: seq<Forward>, rawUsername: string, listenAddr: string) returns (ok: bool)
    ensures ok <==> exists i | 0 <= i < |forwards| ::
              && Covers(forwards[i], listenAddr) && Allows(forwards[i], rawUsername)
              && forall j | 0 <= j < i :: !Covers(forwards[j], listenAddr)
    ensures ok ==> Granted(forwards, rawUsername, listenAddr)
  {
    hide Trim, NormalTarget, ConfiguredAddr;
    var username := Trim(rawUsername);
    for i := 0 to |forwards|
      invariant forall j | 0 <= j < i :: !Covers(forwards[j], listenAddr)
    {
      if Covers(forwards[i], listenAddr) {
        ok := AllowedUser(forwards[i].allowedUsers, username);
        assert forwards[i] in forwards;
        return;
      }
    }
    return false;
  }

  /** For a configuration that validation accepts, stopping at the first rule loses nothing: a user may activate an
      address exactly when some reverse rule grants it. */
  method AuthorizeAccepted(cfg: Config, spelled: string -> bool, targetHost: string -> bool, dated: string -> bool,
                           username: string, listenAddr: string) returns (ok: bool)
    requires ConfigAccepted(cfg.(forwards := AllWithDefaults(cfg.forwards)), spelled, targetHost, dated)
    ensures ok <==> Granted(AllWithDefaults(cfg.forwards), username, listenAddr)
  {
    var ds := AllWithDefaults(cfg.forwards);
    FirstRuleDecides(cfg.forwards, Names(cfg.users), targetHost, username, listenAddr);
    hide *;
    ok := AuthorizeReverse(ds, username, listenAddr);
  }

  lemma FirstRuleDecides(forwards: seq<Forward>, known: set<string>, targetHost: string -> bool, username: string,
                         listenAddr: string)
    requires Accepted(AllWithDefaults(forwards), known, targetHost)
    ensures var ds := AllWithDefaults(forwards);
            Granted(ds, username, listenAddr) <==>
            exists i | 0 <= i < |ds| ::
              && Covers(ds[i], listenAddr) && Allows(ds[i], username)
              && forall j | 0 <= j < i :: !Covers(ds[j], listenAddr)
  {
    var ds := AllWithDefaults(forwards);
    hide Covers, Allows, Accepted;
    if Granted(ds, username, listenAddr) {
      var f :| f in ds && Covers(f, listenAddr) && Allows(f, username);
      var i :| 0 <= i < |ds| && ds[i] == f;
      forall j | 0 <= j < i ensures !Covers(ds[j], listenAddr) {
        if Covers(ds[j], listenAddr) {
          AddressHasOneRule(forwards, known, targetHost, listenAddr, i, j);
        }
      }
    }
  }

  lemma CoversOwnPort(f: Forward)
    requires f.direction == SERVER_TO_CLIENT && f.listenAddr == "" && 0 < f.listenPort <= 65535
    ensures Covers(f, LoopbackAddr(f.listenPort))
  {
    hide Trim, LoopbackAddr, NormalTarget;
    DirectionsAreTrimmed();
    LoopbackIsCanonical(f.listenPort);
    assert Trim(f.listenAddr) == Trim("");
    assert ConfiguredAddr(f) == LoopbackAddr(f.listenPort);
    hide ConfiguredAddr;
  }

  /** Which addresses a rule covers: a reverse rule with consistent fields exactly that of its port, however the
      loopback host is spelled in the case of letters, and no other rule any. */
  lemma CoversMeans(f: Forward, port: nat, addr: string)
    requires 1 <= port <= 65535
    ensures Trim(f.direction) != "server_to_client" ==> !Covers(f, addr)
    ensures Trim(f.direction) == "server_to_client" && f.listenAddr == LoopbackAddr(port) ==>
              (Covers(f, addr) <==> NormalTarget(addr) == LoopbackAddr(port))
    ensures Trim(f.direction) == "server_to_client" && Trim(f.listenAddr) == "" && f.listenPort == port ==>
              (Covers(f, addr) <==> NormalTarget(addr) == LoopbackAddr(port))
    ensures Trim(f.listenAddr) == "" && !(1 <= f.listenPort <= 65535) ==> !Covers(f, addr)
  {
    LoopbackIsCanonical(port);
    hide Trim, NormalTarget, LoopbackAddr;
  }

  /** Which targets a rule stands for: those with the normal spelling of its own, and only if it is not a reverse
      rule. */
  lemma TargetRuleMeans(f: Forward, host: string, port: string, host': string, port': string)
    requires NoBrackets(host) && NoBrackets(port) && ':' !in port && Trimmed(JoinHostPort(host, port))
    requires NoBrackets(host') && NoBrackets(port') && ':' !in port' && Trimmed(JoinHostPort(host', port'))
    requires f.serverTarget == JoinHostPort(host, port)
    ensures Trim(f.direction) in {"", "client_to_server"} ==>
              (TargetRule(f, JoinHostPort(host', port')) <==> Lower(host) == Lower(host') && port == port')
    ensures Trim(f.direction) !in {"", "client_to_server"} ==> !TargetRule(f, JoinHostPort(host', port'))
    ensures forall g: Forward, target | Trim(g.serverTarget) == "" :: !TargetRule(g, target)
  {
    NormalTargetMeans(host, port, host', port');
    TrimOfTrimmed(JoinHostPort(host, port));
    assert JoinHostPort(host, port) != "";
    hide Trim, NormalTarget, JoinHostPort, Lower;
  }

  /** Without validation it can lose a grant: of two rules for one port only the first is looked at. */
  lemma FirstRuleCanHideAGrant(f: Forward, g: Forward, username: string)
    requires f.direction == g.direction == SERVER_TO_CLIENT && f.listenAddr == g.listenAddr == ""
    requires 0 < f.listenPort == g.listenPort <= 65535
    requires !Allows(f, username) && Allows(g, username)
    ensures Granted([f, g], username, LoopbackAddr(f.listenPort))
    ensures !exists i | 0 <= i < 2 ::
              && Covers([f, g][i], LoopbackAddr(f.listenPort)) && Allows([f, g][i], username)
              && forall j | 0 <= j < i :: !Covers([f, g][j], LoopbackAddr(f.listenPort))
  {
    CoversOwnPort(f);
    CoversOwnPort(g);
    hide Covers, Allows, LoopbackAddr;
    var rules := [f, g];
    assert rules[0] == f && rules[1] == g && g in rules;
  }

  /** allowedConfiguredForward: the first client-to-server rule that has both the user and the target. */
  predicate TargetRule(f: Forward, target: string) {
    && DirectionOf(f) == CLIENT_TO_SERVER && Trim(f.serverTarget) != ""
    && NormalTarget(Trim(f.serverTarget)) == NormalTarget(target)
  }

  method AllowedConfiguredForward(forwards: seq<Forward>, rawUsername: string, target: string)
    returns (found: Option<Forward>)
    ensures found.Some? ==> found.value in forwards && TargetRule(found.value, target) && Allows(found.value, rawUsername)
    ensures found.None? <==>
            Trim(rawUsername) == "" || forall f | f in forwards :: !(TargetRule(f, target) && Allows(f, rawUsername))
  {
    hide Trim, NormalTarget;
    var username := Trim(rawUsername);
    if username == "" {
      return None;
    }
    for i := 0 to |forwards|
      invariant forall j | 0 <= j < i :: !(TargetRule(forwards[j], target) && Allows(forwards[j], rawUsername))
    {
      var f := forwards[i];
      if DirectionOf(f) == CLIENT_TO_SERVER {
        var allowed := AllowedUser(f.allowedUsers, username);
        if allowed && TargetRule(f, target) {
          return Some(f);
        }
      }
    }
    return None;
  }
}
