/** Validation of IPsec configurations (core/include/router/ipsec_configuration.hpp,
    core/include/router/ipsec_credentials_configuration.hpp and
    core/include/router/ipsec_traffic_selector_configuration.hpp): nested loops over lists that decide
    whether every key is unique, every value in range and every reference resolved. */
module IpsecConfiguration {
  import opened Options

  // ---------------------------------------------------------------- items

  /** AES-GCM key sizes in bits. */
  datatype IkeTransform = IkeTransform(
    id: nat, keyBits: nat, encryptionConfigured: bool, authenticationEncryptionConfigured: bool, lifetime: nat)

  datatype IpsecTransform = IpsecTransform(
    id: nat, keyBits: nat, encryptionConfigured: bool, authenticationEncryptionConfigured: bool,
    lifetimeConfigured: bool, lifetime: nat)

  datatype Authentication = Psk | Certificate | Symmetric

  datatype Fragmentation = Fragmentation(
    configured: bool, mtuConfigured: bool, mtu: nat, timeoutConfigured: bool, timeout: nat)

  datatype Dpd = Dpd(
    configured: bool, intervalConfigured: bool, interval: nat, retriesConfigured: bool, retries: nat, replyOnlyConfigured: bool)

  datatype Nat = Nat(
    configured: bool, forceConfigured: bool, forceKeepaliveConfigured: bool, intervalConfigured: bool, interval: nat)

  datatype IkePolicy = IkePolicy(
    id: nat, description: string, transforms: seq<nat>, peer: Authentication, own: Authentication,
    lifetime: nat, fragmentation: Fragmentation, dpd: Dpd, traversal: Nat)

  datatype StaticSa = StaticSa(
    name: string, description: string, containerConfigured: bool, authenticationConfigured: bool, keyHandle: nat,
    spiConfigured: bool, spi: nat)

  datatype CertificateEntry = CertificateEntry(
    id: nat, certificateFile: string, privateKeyFile: string, compareChain: string, sendChain: seq<string>)

  datatype CertificateProfile = CertificateProfile(name: string, entries: seq<CertificateEntry>, enabled: bool)

  datatype TrustAnchorProfile = TrustAnchorProfile(name: string, anchors: seq<string>)

  datatype PpkEntry = PpkEntry(id: string, secretHandle: nat)

  datatype PpkList = PpkList(name: string, entries: seq<PpkEntry>)

  datatype Address = Address(bits: nat, value: nat)

  datatype Prefix = Prefix(network: Address, length: nat)

  datatype SelectorProtocol = AnyProtocol | Icmp | Tcp | Udp | Mobility | Icmpv6 | Sctp | Numeric

  datatype SelectorEntry = SelectorEntry(
    id: nat, prefix: Option<Prefix>, rangeBegin: Option<Address>, rangeEnd: Option<Address>, protocol: SelectorProtocol,
    numeric: nat, protocolConfigured: bool, first: nat, last: nat, opaquePorts: bool,
    beginConfigured: bool, endConfigured: bool, icmpLeaves: (bool, bool, bool, bool))

  datatype SelectorList = SelectorList(name: string, local: seq<SelectorEntry>, remote: seq<SelectorEntry>)

  /** A leaf that is not configured is none; its stored value is not looked at. */
  datatype TransportProfile = TransportProfile(
    name: string, description: string, policy: nat, transforms: seq<nat>, certificate: string, anchor: string,
    ppkList: string, ppkId: string, identity: string,
    replayWindow: Option<nat>, espHistory: Option<nat>, ikeHistory: Option<nat>)

  datatype RateLimit = RateLimit(interval: nat, messages: nat)

  /** `publicMss` is none as well when it follows the path automatically. */
  datatype TunnelTemplate = TunnelTemplate(
    id: nat, description: string, transforms: seq<nat>, ppkList: string,
    encapsulatedMtu: Option<nat>, mtu: Option<nat>, replayWindow: Option<nat>, aging: nat,
    privateMss: Option<nat>, publicMss: Option<nat>, fragmentationRate: RateLimit, tooBigRate: RateLimit)

  datatype Configuration = Configuration(
    ikeTransforms: seq<IkeTransform>, ipsecTransforms: seq<IpsecTransform>, policies: seq<IkePolicy>, statics: seq<StaticSa>,
    certificates: seq<CertificateProfile>, anchors: seq<TrustAnchorProfile>, ppks: seq<PpkList>,
    selectors: seq<SelectorList>, transports: seq<TransportProfile>, tunnels: seq<TunnelTemplate>)

  // ---------------------------------------------------------------- values

  predicate Lifetime(seconds: nat) {
    1_200 <= seconds <= 31_536_000
  }

  predicate Blank(s: string) {
    forall i :: 0 <= i < |s| ==> s[i] == ' '
  }

  predicate NamedKey(s: string, maximum: nat) {
    0 < |s| <= maximum && !Blank(s)
  }

  predicate FileName(s: string) {
    NamedKey(s, 95) && forall i :: 0 <= i < |s| ==> s[i] != ':' && s[i] != '/' && s[i] != '\\'
  }

  predicate Description(s: string, maximum: nat) {
    |s| <= maximum && (s == "" || !Blank(s))
  }

  predicate IkeTransformOk(t: IkeTransform) {
    (t.keyBits == 128 || t.keyBits == 256) && (t.encryptionConfigured ==> t.authenticationEncryptionConfigured) && Lifetime(t.lifetime)
  }

  predicate IpsecTransformOk(t: IpsecTransform) {
    && (t.keyBits == 128 || t.keyBits == 192 || t.keyBits == 256)
    && (t.encryptionConfigured ==> t.authenticationEncryptionConfigured) && (t.lifetimeConfigured ==> Lifetime(t.lifetime))
  }

  predicate PolicyOk(p: IkePolicy) {
    && Description(p.description, 80) && |p.transforms| <= 4 && p.peer == Psk && p.own == Symmetric && Lifetime(p.lifetime)
    && 512 <= p.fragmentation.mtu <= 9_000 && 1 <= p.fragmentation.timeout <= 5
    && 10 <= p.dpd.interval <= 300 && 2 <= p.dpd.retries <= 5
    && (p.fragmentation.mtuConfigured || p.fragmentation.timeoutConfigured ==> p.fragmentation.configured)
    && (p.dpd.intervalConfigured || p.dpd.retriesConfigured || p.dpd.replyOnlyConfigured ==> p.dpd.configured)
    && (p.traversal.forceConfigured || p.traversal.forceKeepaliveConfigured || p.traversal.intervalConfigured ==> p.traversal.configured)
    && (p.traversal.intervalConfigured ==> 120 <= p.traversal.interval <= 600)
  }

  predicate StaticSaOk(s: StaticSa, incomplete: bool) {
    && Description(s.description, 32)
    && (s.authenticationConfigured || s.keyHandle != 0 ==> s.containerConfigured)
    && (s.containerConfigured && !incomplete ==> s.authenticationConfigured && s.keyHandle != 0)
    && (if s.spiConfigured then 256 <= s.spi <= 16_383 else s.spi == 0)
  }

  predicate CertificateEntryOk(e: CertificateEntry, enabled: bool, incomplete: bool) {
    && 1 <= e.id <= 8
    && (e.certificateFile != "" ==> FileName(e.certificateFile)) && (e.privateKeyFile != "" ==> FileName(e.privateKeyFile))
    && (e.compareChain != "" ==> NamedKey(e.compareChain, 32)) && |e.sendChain| <= 7
    && (forall i :: 0 <= i < |e.sendChain| ==> NamedKey(e.sendChain[i], 32)) && NoRepeats(e.sendChain)
    && (!incomplete && enabled ==> e.certificateFile != "" && e.privateKeyFile != "")
  }

  predicate NoRepeats<T(==)>(s: seq<T>) {
    forall i, j :: 0 <= i < j < |s| ==> s[i] != s[j]
  }

  predicate AnchorProfileOk(p: TrustAnchorProfile) {
    |p.anchors| <= 8 && (forall i :: 0 <= i < |p.anchors| ==> NamedKey(p.anchors[i], 32)) && NoRepeats(p.anchors)
  }

  predicate PpkEntryOk(e: PpkEntry, incomplete: bool) {
    NamedKey(e.id, 64) && (!incomplete ==> e.secretHandle != 0)
  }

  function Pow2(n: nat): (r: nat)
    ensures r > 0
  {
    if n == 0 then 1 else 2 * Pow2(n - 1)
  }

  predicate AddressOk(a: Address) {
    (a.bits == 32 || a.bits == 128) && a.value < Pow2(a.bits)
  }

  /** No host bit is set. */
  predicate PrefixOk(p: Prefix) {
    AddressOk(p.network) && p.length <= p.network.bits && p.network.value % Pow2(p.network.bits - p.length) == 0
  }

  predicate SelectorOk(e: SelectorEntry, incomplete: bool) {
    var half := e.rangeBegin.Some? != e.rangeEnd.Some?;
    var range := e.rangeBegin.Some? && e.rangeEnd.Some?;
    var (a, b, c, d) := e.icmpLeaves;
    var anyLeaf, allLeaves := a || b || c || d, a && b && c && d;
    var icmp := e.protocol == Icmp || e.protocol == Icmpv6;
    var ranged := icmp || e.protocol == Tcp || e.protocol == Udp || e.protocol == Sctp || e.protocol == Mobility;
    var halfSelector := e.beginConfigured != e.endConfigured;
    && 1 <= e.id <= 32
    && !(e.prefix.Some? && (range || half)) && (incomplete || !half)
    && (e.prefix.Some? ==> PrefixOk(e.prefix.value))
    && (range ==> && AddressOk(e.rangeBegin.value) && AddressOk(e.rangeEnd.value)
                  && e.rangeBegin.value.bits == e.rangeEnd.value.bits && e.rangeBegin.value.value <= e.rangeEnd.value.value)
    && (e.protocol == Numeric ==> e.numeric != 0) && (e.numeric != 0 ==> e.protocolConfigured)
    && (!incomplete ==> !halfSelector && (anyLeaf ==> allLeaves) && (!e.opaquePorts ==> e.first <= e.last))
    && (anyLeaf ==> icmp && !e.beginConfigured && !e.endConfigured)
    && (!ranged ==> !e.opaquePorts && !e.beginConfigured && !e.endConfigured && e.first == 0 && e.last == 65_535)
    && (e.opaquePorts ==> !e.beginConfigured && !e.endConfigured && !anyLeaf)
  }

  predicate ReplayWindowOk(window: nat) {
    window == 32 || window == 64 || window == 128 || window == 256 || window == 512
  }

  predicate Within(value: Option<nat>, low: nat, high: nat) {
    value.Some? ==> low <= value.value <= high
  }

  predicate RateOk(rate: RateLimit) {
    1 <= rate.interval <= 60 && 10 <= rate.messages <= 1_000
  }

  /** The part of a transport profile that needs no other list. */
  predicate TransportValuesOk(t: TransportProfile) {
    && 0 < |t.name| <= 32 && |t.description| <= 80 && |t.transforms| <= 4
    && |t.certificate| <= 32 && |t.anchor| <= 32 && |t.ppkList| <= 32 && |t.ppkId| <= 64 && |t.identity| <= 255
    && (t.replayWindow.Some? ==> ReplayWindowOk(t.replayWindow.value))
    && Within(t.espHistory, 1, 48) && Within(t.ikeHistory, 1, 3)
  }

  predicate TunnelValuesOk(t: TunnelTemplate) {
    && 1 <= t.id <= 2048 && |t.description| <= 80 && |t.transforms| <= 4 && |t.ppkList| <= 32
    && Within(t.encapsulatedMtu, 512, 9_000) && Within(t.mtu, 512, 9_000)
    && (t.replayWindow.Some? ==> ReplayWindowOk(t.replayWindow.value))
    && 900 <= t.aging <= 3_600 && Within(t.privateMss, 512, 9_000) && Within(t.publicMss, 512, 9_000)
    && RateOk(t.fragmentationRate) && RateOk(t.tooBigRate)
  }

  // ---------------------------------------------------------------- the specification

  /** All keys differ. */
  ghost predicate DistinctBy<T, K>(items: seq<T>, key: T -> K) {
    forall i, j :: 0 <= i < j < |items| ==> key(items[i]) != key(items[j])
  }

  ghost predicate CertificateProfileOk(p: CertificateProfile, incomplete: bool) {
    && |p.entries| <= 8 && DistinctBy(p.entries, (e: CertificateEntry) => e.id)
    && (forall e :: e in p.entries ==> CertificateEntryOk(e, p.enabled, incomplete))
    && (!incomplete && p.enabled ==> p.entries != [])
  }

  ghost predicate PpkListOk(l: PpkList, incomplete: bool) {
    && |l.entries| <= 128 && DistinctBy(l.entries, (e: PpkEntry) => e.id)
    && forall e :: e in l.entries ==> PpkEntryOk(e, incomplete)
  }

  ghost predicate SideOk(entries: seq<SelectorEntry>, incomplete: bool) {
    && |entries| <= 32 && DistinctBy(entries, (e: SelectorEntry) => e.id)
    && forall e :: e in entries ==> SelectorOk(e, incomplete)
  }

  ghost predicate SelectorListOk(l: SelectorList, incomplete: bool) {
    0 < |l.name| <= 32 && SideOk(l.local, incomplete) && SideOk(l.remote, incomplete)
  }

  /** Keys of every list are in range and differ, and every item is right in itself. */
  ghost predicate ListsOk(c: Configuration, incomplete: bool) {
    && |c.ikeTransforms| <= 4096 && DistinctBy(c.ikeTransforms, (t: IkeTransform) => t.id)
    && (forall t :: t in c.ikeTransforms ==> 1 <= t.id <= 4096 && IkeTransformOk(t))
    && |c.ipsecTransforms| <= 2048 && DistinctBy(c.ipsecTransforms, (t: IpsecTransform) => t.id)
    && (forall t :: t in c.ipsecTransforms ==> 1 <= t.id <= 2048 && IpsecTransformOk(t))
    && |c.policies| <= 2048 && DistinctBy(c.policies, (p: IkePolicy) => p.id)
    && (forall p :: p in c.policies ==> 1 <= p.id <= 2048 && PolicyOk(p))
    && |c.statics| <= 1000 && DistinctBy(c.statics, (s: StaticSa) => s.name)
    && (forall s :: s in c.statics ==> NamedKey(s.name, 32) && StaticSaOk(s, incomplete))
  }

  ghost predicate CertificatesOk(profiles: seq<CertificateProfile>, incomplete: bool) {
    && |profiles| <= 10_200 && DistinctBy(profiles, (p: CertificateProfile) => p.name)
    && forall p :: p in profiles ==> NamedKey(p.name, 32) && CertificateProfileOk(p, incomplete)
  }

  ghost predicate AnchorsOk(profiles: seq<TrustAnchorProfile>) {
    && |profiles| <= 10_128 && DistinctBy(profiles, (p: TrustAnchorProfile) => p.name)
    && forall p :: p in profiles ==> NamedKey(p.name, 32) && AnchorProfileOk(p)
  }

  ghost predicate PpksOk(lists: seq<PpkList>, incomplete: bool) {
    && |lists| <= 128 && DistinctBy(lists, (l: PpkList) => l.name)
    && forall l :: l in lists ==> NamedKey(l.name, 32) && PpkListOk(l, incomplete)
  }

  ghost predicate SelectorsOk(lists: seq<SelectorList>, incomplete: bool) {
    && |lists| <= 32_768 && DistinctBy(lists, (l: SelectorList) => l.name)
    && forall l :: l in lists ==> SelectorListOk(l, incomplete)
  }

  ghost predicate CredentialsOk(c: Configuration, incomplete: bool) {
    && CertificatesOk(c.certificates, incomplete) && AnchorsOk(c.anchors)
    && PpksOk(c.ppks, incomplete) && SelectorsOk(c.selectors, incomplete)
  }

  ghost predicate ProfilesOk(transports: seq<TransportProfile>, tunnels: seq<TunnelTemplate>) {
    && DistinctBy(transports, (t: TransportProfile) => t.name) && (forall t :: t in transports ==> TransportValuesOk(t))
    && |tunnels| <= 2048
    && DistinctBy(tunnels, (t: TunnelTemplate) => t.id) && (forall t :: t in tunnels ==> TunnelValuesOk(t))
  }

  ghost predicate HasIpsec(c: Configuration, id: nat) {
    exists t :: t in c.ipsecTransforms && t.id == id
  }

  ghost predicate HasPolicy(c: Configuration, id: nat) {
    exists p :: p in c.policies && p.id == id
  }

  ghost predicate HasCertificate(c: Configuration, name: string) {
    exists p :: p in c.certificates && p.name == name
  }

  ghost predicate HasAnchor(c: Configuration, name: string) {
    exists p :: p in c.anchors && p.name == name
  }

  ghost predicate HasPpk(c: Configuration, name: string) {
    exists l :: l in c.ppks && l.name == name
  }

  ghost predicate HasPpkId(c: Configuration, name: string, id: string) {
    exists l, e :: l in c.ppks && l.name == name && e in l.entries && e.id == id
  }

  ghost predicate TransformsResolve(c: Configuration, references: seq<nat>) {
    NoRepeats(references) && forall r :: r in references ==> HasIpsec(c, r)
  }

  ghost predicate TransportOk(c: Configuration, t: TransportProfile) {
    && TransformsResolve(c, t.transforms)
    && (t.policy != 0 ==> HasPolicy(c, t.policy)) && (t.certificate != "" ==> HasCertificate(c, t.certificate))
    && (t.anchor != "" ==> HasAnchor(c, t.anchor))
    && PpkResolves(c, t)
  }

  /** Every reference names an item of this configuration. */
  ghost predicate ReferencesOk(c: Configuration) {
    && (forall p :: p in c.policies ==> PolicyResolves(c, p))
    && (forall t :: t in c.transports ==> TransportOk(c, t))
    && (forall t :: t in c.tunnels ==> TunnelOk(c, t))
  }

  ghost predicate PolicyResolves(c: Configuration, p: IkePolicy) {
    NoRepeats(p.transforms) && forall r :: r in p.transforms ==> exists t :: t in c.ikeTransforms && t.id == r
  }

  ghost predicate TunnelOk(c: Configuration, t: TunnelTemplate) {
    && TransformsResolve(c, t.transforms)
    && (t.ppkList != "" ==> HasPpk(c, t.ppkList))
  }

  ghost predicate Accepted(c: Configuration, incomplete: bool) {
    && ListsOk(c, incomplete) && CredentialsOk(c, incomplete)
    && ProfilesOk(c.transports, c.tunnels) && ReferencesOk(c)
  }

  // ---------------------------------------------------------------- laws of the specification

  /** What is accepted as running is accepted as a candidate. */
  lemma RunningIsCandidate(c: Configuration)
    requires Accepted(c, false)
    ensures Accepted(c, true)
  {
    forall p | p in c.certificates
      ensures CertificateProfileOk(p, true)
    {
      assert CertificateProfileOk(p, false);
    }
    forall l | l in c.ppks
      ensures PpkListOk(l, true)
    {
      assert PpkListOk(l, false);
    }
    forall l | l in c.selectors
      ensures SelectorListOk(l, true)
    {
      assert SelectorListOk(l, false);
      assert forall e :: e in l.local ==> SelectorOk(e, false);
      assert forall e :: e in l.remote ==> SelectorOk(e, false);
    }
  }

  /** `b` is `a` in another order. */
  ghost predicate Reordered<T>(a: seq<T>, b: seq<T>) {
    multiset(a) == multiset(b)
  }

  lemma ReorderedMembers<T>(a: seq<T>, b: seq<T>)
    requires Reordered(a, b)
    ensures |a| == |b| && forall x :: x in a <==> x in b
  {
    assert |multiset(a)| == |a| && |multiset(b)| == |b|;
    assert forall x :: x in a <==> x in multiset(a);
    assert forall x :: x in b <==> x in multiset(b);
  }

  ghost function Keys<T, K>(items: seq<T>, key: T -> K): set<K> {
    set x | x in items :: key(x)
  }

  lemma KeysOfAppend<T, K>(before: seq<T>, last: T, key: T -> K)
    ensures Keys(before + [last], key) == Keys(before, key) + {key(last)}
  {
    assert forall x :: x in before + [last] <==> x in before || x == last;
  }

  lemma DistinctOfAppend<T, K>(before: seq<T>, last: T, key: T -> K)
    ensures DistinctBy(before + [last], key) <==> DistinctBy(before, key) && key(last) !in Keys(before, key)
  {
    var items := before + [last];
    assert forall i :: 0 <= i < |before| ==> items[i] == before[i];
    assert items[|before|] == last;
    if key(last) in Keys(before, key) {
      var x :| x in before && key(x) == key(last);
      var i :| 0 <= i < |before| && before[i] == x;
      assert key(items[i]) == key(items[|before|]);
    } else {
      forall i | 0 <= i < |before|
        ensures key(before[i]) != key(last)
      {
        assert before[i] in before;
      }
    }
  }

  /** Keys differ exactly when there are as many of them as items. */
  lemma {:induction false} DistinctByCount<T, K>(items: seq<T>, key: T -> K)
    ensures |Keys(items, key)| <= |items|
    ensures DistinctBy(items, key) <==> |Keys(items, key)| == |items|
    decreases |items|
  {
    if items == [] {
      assert Keys(items, key) == {};
    } else {
      var before, last := items[..|items| - 1], items[|items| - 1];
      assert items == before + [last];
      hide Keys, DistinctBy;
      DistinctByCount(before, key);
      KeysOfAppend(before, last, key);
      DistinctOfAppend(before, last, key);
    }
  }

  lemma ReorderedDistinct<T, K>(a: seq<T>, b: seq<T>, key: T -> K)
    requires Reordered(a, b)
    ensures DistinctBy(a, key) <==> DistinctBy(b, key)
  {
    hide DistinctBy;
    ReorderedMembers(a, b);
    DistinctByCount(a, key);
    DistinctByCount(b, key);
    assert Keys(a, key) == Keys(b, key);
  }

  ghost predicate ReorderedAll(a: Configuration, b: Configuration) {
    && Reordered(a.ikeTransforms, b.ikeTransforms) && Reordered(a.ipsecTransforms, b.ipsecTransforms)
    && Reordered(a.policies, b.policies) && Reordered(a.statics, b.statics)
    && Reordered(a.certificates, b.certificates) && Reordered(a.anchors, b.anchors) && Reordered(a.ppks, b.ppks)
    && Reordered(a.selectors, b.selectors) && Reordered(a.transports, b.transports) && Reordered(a.tunnels, b.tunnels)
  }

  lemma ReorderedLists(a: Configuration, b: Configuration, incomplete: bool)
    requires ReorderedAll(a, b)
    ensures ListsOk(a, incomplete) <==> ListsOk(b, incomplete)
  {
    ReorderedMembers(a.ikeTransforms, b.ikeTransforms);
    ReorderedMembers(a.ipsecTransforms, b.ipsecTransforms);
    ReorderedMembers(a.policies, b.policies);
    ReorderedMembers(a.statics, b.statics);
    ReorderedDistinct(a.ikeTransforms, b.ikeTransforms, (t: IkeTransform) => t.id);
    ReorderedDistinct(a.ipsecTransforms, b.ipsecTransforms, (t: IpsecTransform) => t.id);
    ReorderedDistinct(a.policies, b.policies, (p: IkePolicy) => p.id);
    ReorderedDistinct(a.statics, b.statics, (x: StaticSa) => x.name);
    hide IkeTransformOk, IpsecTransformOk, PolicyOk, StaticSaOk, NamedKey;
  }

  lemma ReorderedCredentials(a: Configuration, b: Configuration, incomplete: bool)
    requires ReorderedAll(a, b)
    ensures CredentialsOk(a, incomplete) <==> CredentialsOk(b, incomplete)
  {
    ReorderedMembers(a.certificates, b.certificates);
    ReorderedMembers(a.anchors, b.anchors);
    ReorderedMembers(a.ppks, b.ppks);
    ReorderedMembers(a.selectors, b.selectors);
    ReorderedDistinct(a.certificates, b.certificates, (p: CertificateProfile) => p.name);
    ReorderedDistinct(a.anchors, b.anchors, (p: TrustAnchorProfile) => p.name);
    ReorderedDistinct(a.ppks, b.ppks, (l: PpkList) => l.name);
    ReorderedDistinct(a.selectors, b.selectors, (l: SelectorList) => l.name);
    hide CertificateProfileOk, AnchorProfileOk, PpkListOk, SelectorListOk, NamedKey;
  }

  lemma ReorderedProfiles(a: Configuration, b: Configuration)
    requires ReorderedAll(a, b)
    ensures ProfilesOk(a.transports, a.tunnels) <==> ProfilesOk(b.transports, b.tunnels)
  {
    hide TransportValuesOk, TunnelValuesOk;
    ReorderedMembers(a.transports, b.transports);
    ReorderedMembers(a.tunnels, b.tunnels);
    ReorderedDistinct(a.transports, b.transports, (t: TransportProfile) => t.name);
    ReorderedDistinct(a.tunnels, b.tunnels, (t: TunnelTemplate) => t.id);
  }

  lemma ReorderedReferences(a: Configuration, b: Configuration)
    requires ReorderedAll(a, b)
    ensures ReferencesOk(a) <==> ReferencesOk(b)
  {
    ReorderedMembers(a.ikeTransforms, b.ikeTransforms);
    ReorderedMembers(a.ipsecTransforms, b.ipsecTransforms);
    ReorderedMembers(a.policies, b.policies);
    ReorderedMembers(a.certificates, b.certificates);
    ReorderedMembers(a.anchors, b.anchors);
    ReorderedMembers(a.ppks, b.ppks);
    ReorderedMembers(a.transports, b.transports);
    ReorderedMembers(a.tunnels, b.tunnels);
    hide NoRepeats;
    forall references
      ensures TransformsResolve(a, references) <==> TransformsResolve(b, references)
    {
    }
    forall t
      ensures TransportOk(a, t) <==> TransportOk(b, t)
    {
    }
  }

  lemma OuterOrderDoesNotMatter(a: Configuration, b: Configuration, incomplete: bool)
    requires ReorderedAll(a, b)
    ensures Accepted(a, incomplete) <==> Accepted(b, incomplete)
  {
    hide ListsOk, CredentialsOk, ProfilesOk, ReferencesOk, ReorderedAll;
    ReorderedProfiles(a, b);
    ReorderedLists(a, b, incomplete);
    ReorderedCredentials(a, b, incomplete);
    ReorderedReferences(a, b);
  }

  // ---------------------------------------------------------------- order inside the items

  /** Items that differ in the order of the lists inside them only. */
  ghost predicate SimilarPolicy(a: IkePolicy, b: IkePolicy) {
    b == a.(transforms := b.transforms) && Reordered(a.transforms, b.transforms)
  }

  ghost predicate SimilarTransport(a: TransportProfile, b: TransportProfile) {
    b == a.(transforms := b.transforms) && Reordered(a.transforms, b.transforms)
  }

  ghost predicate SimilarTunnel(a: TunnelTemplate, b: TunnelTemplate) {
    b == a.(transforms := b.transforms) && Reordered(a.transforms, b.transforms)
  }

  ghost predicate SimilarAnchors(a: TrustAnchorProfile, b: TrustAnchorProfile) {
    b == a.(anchors := b.anchors) && Reordered(a.anchors, b.anchors)
  }

  ghost predicate SimilarEntry(a: CertificateEntry, b: CertificateEntry) {
    b == a.(sendChain := b.sendChain) && Reordered(a.sendChain, b.sendChain)
  }

  ghost predicate SimilarEntries(a: seq<CertificateEntry>, b: seq<CertificateEntry>) {
    |a| == |b| && forall i :: 0 <= i < |a| ==> SimilarEntry(a[i], b[i])
  }

  /** The entries in another order, and their send chains as well. */
  ghost predicate SimilarProfile(a: CertificateProfile, b: CertificateProfile) {
    b == a.(entries := b.entries) && exists e :: SimilarEntries(a.entries, e) && Reordered(e, b.entries)
  }

  ghost predicate SimilarPpks(a: PpkList, b: PpkList) {
    b == a.(entries := b.entries) && Reordered(a.entries, b.entries)
  }

  ghost predicate SimilarSelectors(a: SelectorList, b: SelectorList) {
    a.name == b.name && Reordered(a.local, b.local) && Reordered(a.remote, b.remote)
  }

  /** Two configurations whose items correspond one by one up to the order inside them. */
  ghost predicate SimilarItems(a: Configuration, b: Configuration) {
    && a.ikeTransforms == b.ikeTransforms && a.ipsecTransforms == b.ipsecTransforms && a.statics == b.statics
    && |a.policies| == |b.policies| && (forall i :: 0 <= i < |a.policies| ==> SimilarPolicy(a.policies[i], b.policies[i]))
    && |a.certificates| == |b.certificates|
    && (forall i :: 0 <= i < |a.certificates| ==> SimilarProfile(a.certificates[i], b.certificates[i]))
    && |a.anchors| == |b.anchors| && (forall i :: 0 <= i < |a.anchors| ==> SimilarAnchors(a.anchors[i], b.anchors[i]))
    && |a.ppks| == |b.ppks| && (forall i :: 0 <= i < |a.ppks| ==> SimilarPpks(a.ppks[i], b.ppks[i]))
    && |a.selectors| == |b.selectors| && (forall i :: 0 <= i < |a.selectors| ==> SimilarSelectors(a.selectors[i], b.selectors[i]))
    && |a.transports| == |b.transports| && (forall i :: 0 <= i < |a.transports| ==> SimilarTransport(a.transports[i], b.transports[i]))
    && |a.tunnels| == |b.tunnels| && (forall i :: 0 <= i < |a.tunnels| ==> SimilarTunnel(a.tunnels[i], b.tunnels[i]))
  }

  /** The same configuration with every list, outer and inner, in whatever order. */
  ghost predicate SameUpToOrder(a: Configuration, b: Configuration) {
    exists m :: SimilarItems(a, m) && ReorderedAll(m, b)
  }

  lemma AllByIndex<T(!new)>(a: seq<T>, b: seq<T>, ok: T -> bool, ok': T -> bool)
    requires |a| == |b| && forall i :: 0 <= i < |a| ==> (ok(a[i]) <==> ok'(b[i]))
    ensures (forall x :: x in a ==> ok(x)) <==> (forall x :: x in b ==> ok'(x))
  {
    if forall x :: x in a ==> ok(x) {
      forall x | x in b
        ensures ok'(x)
      {
        var i :| 0 <= i < |b| && b[i] == x;
        assert a[i] in a;
      }
    }
    if forall x :: x in b ==> ok'(x) {
      forall x | x in a
        ensures ok(x)
      {
        var i :| 0 <= i < |a| && a[i] == x;
        assert b[i] in b;
      }
    }
  }

  lemma KeysByIndex<T(!new), K>(a: seq<T>, b: seq<T>, key: T -> K, k: K)
    requires |a| == |b| && forall i :: 0 <= i < |a| ==> key(a[i]) == key(b[i])
    ensures DistinctBy(a, key) <==> DistinctBy(b, key)
    ensures (exists x :: x in a && key(x) == k) <==> (exists x :: x in b && key(x) == k)
  {
    if x :| x in a && key(x) == k {
      var i :| 0 <= i < |a| && a[i] == x;
      assert b[i] in b;
    }
    if x :| x in b && key(x) == k {
      var i :| 0 <= i < |b| && b[i] == x;
      assert a[i] in a;
    }
  }

  lemma ReorderedNoRepeats<T(!new)>(a: seq<T>, b: seq<T>)
    requires Reordered(a, b)
    ensures |a| == |b| && (forall x :: x in a <==> x in b) && (NoRepeats(a) <==> NoRepeats(b))
  {
    ReorderedMembers(a, b);
    ReorderedDistinct(a, b, (x: T) => x);
  }

  lemma SimilarEntryOk(a: CertificateEntry, b: CertificateEntry, enabled: bool, incomplete: bool)
    requires SimilarEntry(a, b)
    ensures CertificateEntryOk(a, enabled, incomplete) <==> CertificateEntryOk(b, enabled, incomplete)
  {
    ReorderedNoRepeats(a.sendChain, b.sendChain);
    NamedKeysOk(a.sendChain);
    NamedKeysOk(b.sendChain);
    hide NamedKey, FileName, NoRepeats;
  }

  lemma NamedKeysOk(names: seq<string>)
    ensures (forall i :: 0 <= i < |names| ==> NamedKey(names[i], 32)) <==> (forall n :: n in names ==> NamedKey(n, 32))
  {
    hide NamedKey;
    if forall n :: n in names ==> NamedKey(n, 32) {
      forall i | 0 <= i < |names|
        ensures NamedKey(names[i], 32)
      {
        assert names[i] in names;
      }
    }
  }

  lemma SimilarProfileOk(a: CertificateProfile, b: CertificateProfile, incomplete: bool)
    requires SimilarProfile(a, b)
    ensures CertificateProfileOk(a, incomplete) <==> CertificateProfileOk(b, incomplete)
  {
    var e: seq<CertificateEntry> :| SimilarEntries(a.entries, e) && Reordered(e, b.entries);
    forall i | 0 <= i < |e|
      ensures CertificateEntryOk(a.entries[i], a.enabled, incomplete) <==> CertificateEntryOk(e[i], a.enabled, incomplete)
      ensures a.entries[i].id == e[i].id
    {
      SimilarEntryOk(a.entries[i], e[i], a.enabled, incomplete);
    }
    hide CertificateEntryOk, SimilarEntry;
    var ok := (x: CertificateEntry) => CertificateEntryOk(x, a.enabled, incomplete);
    AllByIndex(a.entries, e, ok, ok);
    KeysByIndex(a.entries, e, (x: CertificateEntry) => x.id, 0);
    ReorderedMembers(e, b.entries);
    ReorderedDistinct(e, b.entries, (x: CertificateEntry) => x.id);
  }

  lemma SimilarPpkOk(l: PpkList, l': PpkList, incomplete: bool)
    requires SimilarPpks(l, l')
    ensures PpkListOk(l, incomplete) <==> PpkListOk(l', incomplete)
  {
    hide PpkEntryOk;
    ReorderedMembers(l.entries, l'.entries);
    ReorderedDistinct(l.entries, l'.entries, (e: PpkEntry) => e.id);
  }

  lemma SimilarSelectorOk(s: SelectorList, s': SelectorList, incomplete: bool)
    requires SimilarSelectors(s, s')
    ensures SelectorListOk(s, incomplete) <==> SelectorListOk(s', incomplete)
  {
    hide SelectorOk;
    ReorderedMembers(s.local, s'.local);
    ReorderedMembers(s.remote, s'.remote);
    ReorderedDistinct(s.local, s'.local, (e: SelectorEntry) => e.id);
    ReorderedDistinct(s.remote, s'.remote, (e: SelectorEntry) => e.id);
  }

  lemma SimilarAnchorOk(t: TrustAnchorProfile, t': TrustAnchorProfile)
    requires SimilarAnchors(t, t')
    ensures AnchorProfileOk(t) <==> AnchorProfileOk(t')
  {
    hide NamedKey, NoRepeats;
    ReorderedNoRepeats(t.anchors, t'.anchors);
    NamedKeysOk(t.anchors);
    NamedKeysOk(t'.anchors);
  }

  lemma SimilarLists(a: Configuration, b: Configuration, incomplete: bool)
    requires SimilarItems(a, b)
    ensures ListsOk(a, incomplete) <==> ListsOk(b, incomplete)
  {
    hide IkeTransformOk, IpsecTransformOk, StaticSaOk, NamedKey;
    forall i | 0 <= i < |a.policies|
      ensures a.policies[i].id == b.policies[i].id && (PolicyOk(a.policies[i]) <==> PolicyOk(b.policies[i]))
    {
      ReorderedMembers(a.policies[i].transforms, b.policies[i].transforms);
    }
    hide PolicyOk, SimilarItems;
    assert |a.policies| == |b.policies| by { SamePolicies(a, b); }
    assert a.ikeTransforms == b.ikeTransforms && a.ipsecTransforms == b.ipsecTransforms && a.statics == b.statics by {
      SamePolicies(a, b);
    }
    var ok := (p: IkePolicy) => 1 <= p.id <= 2048 && PolicyOk(p);
    AllByIndex(a.policies, b.policies, ok, ok);
    KeysByIndex(a.policies, b.policies, (p: IkePolicy) => p.id, 0);
  }

  lemma SamePolicies(a: Configuration, b: Configuration)
    requires SimilarItems(a, b)
    ensures |a.policies| == |b.policies|
    ensures a.ikeTransforms == b.ikeTransforms && a.ipsecTransforms == b.ipsecTransforms && a.statics == b.statics
  {
  }

  lemma SimilarCertificates(a: seq<CertificateProfile>, b: seq<CertificateProfile>, incomplete: bool)
    requires |a| == |b| && forall i :: 0 <= i < |a| ==> SimilarProfile(a[i], b[i])
    ensures CertificatesOk(a, incomplete) <==> CertificatesOk(b, incomplete)
  {
    hide NamedKey, CertificateProfileOk;
    var ok := (p: CertificateProfile) => NamedKey(p.name, 32) && CertificateProfileOk(p, incomplete);
    forall i | 0 <= i < |a|
      ensures a[i].name == b[i].name && (ok(a[i]) <==> ok(b[i]))
    {
      SimilarProfileOk(a[i], b[i], incomplete);
    }
    hide SimilarProfile;
    AllByIndex(a, b, ok, ok);
    KeysByIndex(a, b, (p: CertificateProfile) => p.name, "");
  }

  lemma SimilarAnchorLists(a: seq<TrustAnchorProfile>, b: seq<TrustAnchorProfile>)
    requires |a| == |b| && forall i :: 0 <= i < |a| ==> SimilarAnchors(a[i], b[i])
    ensures AnchorsOk(a) <==> AnchorsOk(b)
  {
    hide NamedKey, AnchorProfileOk;
    var ok := (p: TrustAnchorProfile) => NamedKey(p.name, 32) && AnchorProfileOk(p);
    forall i | 0 <= i < |a|
      ensures a[i].name == b[i].name && (ok(a[i]) <==> ok(b[i]))
    {
      SimilarAnchorOk(a[i], b[i]);
    }
    AllByIndex(a, b, ok, ok);
    KeysByIndex(a, b, (p: TrustAnchorProfile) => p.name, "");
  }

  lemma SimilarPpkLists(a: seq<PpkList>, b: seq<PpkList>, incomplete: bool)
    requires |a| == |b| && forall i :: 0 <= i < |a| ==> SimilarPpks(a[i], b[i])
    ensures PpksOk(a, incomplete) <==> PpksOk(b, incomplete)
  {
    hide NamedKey, PpkListOk;
    var ok := (l: PpkList) => NamedKey(l.name, 32) && PpkListOk(l, incomplete);
    forall i | 0 <= i < |a|
      ensures a[i].name == b[i].name && (ok(a[i]) <==> ok(b[i]))
    {
      SimilarPpkOk(a[i], b[i], incomplete);
    }
    AllByIndex(a, b, ok, ok);
    KeysByIndex(a, b, (l: PpkList) => l.name, "");
  }

  lemma SimilarSelectorLists(a: seq<SelectorList>, b: seq<SelectorList>, incomplete: bool)
    requires |a| == |b| && forall i :: 0 <= i < |a| ==> SimilarSelectors(a[i], b[i])
    ensures SelectorsOk(a, incomplete) <==> SelectorsOk(b, incomplete)
  {
    hide SelectorListOk;
    var ok := (l: SelectorList) => SelectorListOk(l, incomplete);
    forall i | 0 <= i < |a|
      ensures a[i].name == b[i].name && (ok(a[i]) <==> ok(b[i]))
    {
      SimilarSelectorOk(a[i], b[i], incomplete);
    }
    AllByIndex(a, b, ok, ok);
    KeysByIndex(a, b, (l: SelectorList) => l.name, "");
  }

  lemma SimilarCredentials(a: Configuration, b: Configuration, incomplete: bool)
    requires SimilarItems(a, b)
    ensures CredentialsOk(a, incomplete) <==> CredentialsOk(b, incomplete)
  {
    hide CertificatesOk, AnchorsOk, PpksOk, SelectorsOk;
    SimilarCertificates(a.certificates, b.certificates, incomplete);
    SimilarAnchorLists(a.anchors, b.anchors);
    SimilarPpkLists(a.ppks, b.ppks, incomplete);
    SimilarSelectorLists(a.selectors, b.selectors, incomplete);
  }

  lemma SimilarProfiles(a: Configuration, b: Configuration)
    requires SimilarItems(a, b)
    ensures ProfilesOk(a.transports, a.tunnels) <==> ProfilesOk(b.transports, b.tunnels)
  {
    forall i | 0 <= i < |a.transports|
      ensures a.transports[i].name == b.transports[i].name
      ensures TransportValuesOk(a.transports[i]) <==> TransportValuesOk(b.transports[i])
    {
      ReorderedMembers(a.transports[i].transforms, b.transports[i].transforms);
    }
    forall i | 0 <= i < |a.tunnels|
      ensures a.tunnels[i].id == b.tunnels[i].id && (TunnelValuesOk(a.tunnels[i]) <==> TunnelValuesOk(b.tunnels[i]))
    {
      ReorderedMembers(a.tunnels[i].transforms, b.tunnels[i].transforms);
    }
    hide TransportValuesOk, TunnelValuesOk, SimilarTransport, SimilarTunnel;
    AllByIndex(a.transports, b.transports, TransportValuesOk, TransportValuesOk);
    AllByIndex(a.tunnels, b.tunnels, TunnelValuesOk, TunnelValuesOk);
    KeysByIndex(a.transports, b.transports, (t: TransportProfile) => t.name, "");
    KeysByIndex(a.tunnels, b.tunnels, (t: TunnelTemplate) => t.id, 0);
  }

  lemma SimilarReferences(a: Configuration, b: Configuration)
    requires SimilarItems(a, b)
    ensures ReferencesOk(a) <==> ReferencesOk(b)
  {
    forall i | 0 <= i < |a.policies|
      ensures PolicyResolves(a, a.policies[i]) <==> PolicyResolves(b, b.policies[i])
    {
      ReorderedNoRepeats(a.policies[i].transforms, b.policies[i].transforms);
    }
    forall i | 0 <= i < |a.transports|
      ensures TransportOk(a, a.transports[i]) <==> TransportOk(b, b.transports[i])
    {
      SimilarTransportOk(a, b, a.transports[i], b.transports[i]);
    }
    forall i | 0 <= i < |a.tunnels|
      ensures TunnelOk(a, a.tunnels[i]) <==> TunnelOk(b, b.tunnels[i])
    {
      ReorderedNoRepeats(a.tunnels[i].transforms, b.tunnels[i].transforms);
      KeysByIndex(a.ppks, b.ppks, (l: PpkList) => l.name, a.tunnels[i].ppkList);
    }
    hide PolicyResolves, TransportOk, TunnelOk, SimilarPolicy, SimilarTransport, SimilarTunnel;
    AllByIndex(a.policies, b.policies, (p: IkePolicy) => PolicyResolves(a, p), (p: IkePolicy) => PolicyResolves(b, p));
    AllByIndex(a.transports, b.transports, (t: TransportProfile) => TransportOk(a, t), (t: TransportProfile) => TransportOk(b, t));
    AllByIndex(a.tunnels, b.tunnels, (t: TunnelTemplate) => TunnelOk(a, t), (t: TunnelTemplate) => TunnelOk(b, t));
  }

  lemma SimilarTransportOk(a: Configuration, b: Configuration, t: TransportProfile, t': TransportProfile)
    requires SimilarItems(a, b) && SimilarTransport(t, t')
    ensures TransportOk(a, t) <==> TransportOk(b, t')
  {
    hide NoRepeats, HasPolicy, HasCertificate, HasAnchor, HasPpk, HasPpkId;
    ReorderedNoRepeats(t.transforms, t'.transforms);
    SimilarTargets(a, b, t);
    SimilarPpkIds(a, b, t.ppkList, t.ppkId);
    SimilarPpkIds(b, a, t.ppkList, t.ppkId);
    assert forall r :: HasIpsec(a, r) <==> HasIpsec(b, r);
    hide SimilarItems, HasIpsec;
  }

  lemma SimilarTargets(a: Configuration, b: Configuration, t: TransportProfile)
    requires SimilarItems(a, b)
    ensures HasPolicy(a, t.policy) <==> HasPolicy(b, t.policy)
    ensures HasCertificate(a, t.certificate) <==> HasCertificate(b, t.certificate)
    ensures HasAnchor(a, t.anchor) <==> HasAnchor(b, t.anchor)
    ensures HasPpk(a, t.ppkList) <==> HasPpk(b, t.ppkList)
  {
    KeysByIndex(a.policies, b.policies, (p: IkePolicy) => p.id, t.policy);
    KeysByIndex(a.certificates, b.certificates, (p: CertificateProfile) => p.name, t.certificate);
    KeysByIndex(a.anchors, b.anchors, (p: TrustAnchorProfile) => p.name, t.anchor);
    KeysByIndex(a.ppks, b.ppks, (l: PpkList) => l.name, t.ppkList);
  }

  lemma SimilarPpkIds(a: Configuration, b: Configuration, name: string, id: string)
    requires |a.ppks| == |b.ppks| && forall i :: 0 <= i < |a.ppks| ==> SimilarPpks(a.ppks[i], b.ppks[i]) || SimilarPpks(b.ppks[i], a.ppks[i])
    ensures HasPpkId(a, name, id) ==> HasPpkId(b, name, id)
  {
    if l, e :| l in a.ppks && l.name == name && e in l.entries && e.id == id {
      var i :| 0 <= i < |a.ppks| && a.ppks[i] == l;
      assert b.ppks[i] in b.ppks;
      if SimilarPpks(a.ppks[i], b.ppks[i]) {
        ReorderedMembers(a.ppks[i].entries, b.ppks[i].entries);
      } else {
        ReorderedMembers(b.ppks[i].entries, a.ppks[i].entries);
      }
      assert e in b.ppks[i].entries;
    }
  }

  /** The verdict does not depend on the order of any list: not of the outer lists, nor of the transforms of
      policies, transports and tunnels, the anchors, the send chains, or the entries of profiles, key lists
      and selector lists, all reordered together. */
  lemma OrderDoesNotMatter(a: Configuration, b: Configuration, incomplete: bool)
    requires SameUpToOrder(a, b)
    ensures Accepted(a, incomplete) <==> Accepted(b, incomplete)
  {
    hide ListsOk, CredentialsOk, ProfilesOk, ReferencesOk, ReorderedAll, SimilarItems;
    var m :| SimilarItems(a, m) && ReorderedAll(m, b);
    SimilarLists(a, m, incomplete);
    SimilarCredentials(a, m, incomplete);
    SimilarProfiles(a, m);
    SimilarReferences(a, m);
    OuterOrderDoesNotMatter(m, b, incomplete);
  }

  // ---------------------------------------------------------------- the validators

  method UniqueBy<T, K(==)>(items: seq<T>, key: T -> K) returns (ok: bool)
    ensures ok <==> DistinctBy(items, key)
  {
    for left := 0 to |items|
      invariant forall i, j :: 0 <= i < left && i < j < |items| ==> key(items[i]) != key(items[j])
    {
      for right := left + 1 to |items|
        invariant forall j :: left < j < right ==> key(items[left]) != key(items[j])
      {
        if key(items[left]) == key(items[right]) {
          return false;
        }
      }
    }
    return true;
  }

  /** A loop that stops at the first item that is not right. */
  method AllOk<T>(items: seq<T>, right: T -> bool) returns (ok: bool)
    ensures ok <==> forall x :: x in items ==> right(x)
  {
    for i := 0 to |items|
      invariant forall k :: 0 <= k < i ==> right(items[k])
    {
      if !right(items[i]) {
        assert items[i] in items;
        return false;
      }
    }
    return true;
  }

  method ValidateCertificates(profiles: seq<CertificateProfile>, incomplete: bool) returns (ok: bool)
    ensures ok <==> && |profiles| <= 10_200 && DistinctBy(profiles, (p: CertificateProfile) => p.name)
                    && forall p :: p in profiles ==> NamedKey(p.name, 32) && CertificateProfileOk(p, incomplete)
  {
    hide NamedKey, CertificateEntryOk;
    if |profiles| > 10_200 {
      return false;
    }
    var unique := UniqueBy(profiles, (p: CertificateProfile) => p.name);
    if !unique {
      return false;
    }
    for i := 0 to |profiles|
      invariant forall k :: 0 <= k < i ==> NamedKey(profiles[k].name, 32) && CertificateProfileOk(profiles[k], incomplete)
    {
      var p := profiles[i];
      assert p in profiles;
      if !NamedKey(p.name, 32) || |p.entries| > 8 || (!incomplete && p.enabled && |p.entries| == 0) {
        return false;
      }
      var entriesUnique := UniqueBy(p.entries, (e: CertificateEntry) => e.id);
      var entriesOk := AllOk(p.entries, e => CertificateEntryOk(e, p.enabled, incomplete));
      if !entriesUnique || !entriesOk {
        return false;
      }
    }
    return true;
  }

  method ValidatePpks(lists: seq<PpkList>, incomplete: bool) returns (ok: bool)
    ensures ok <==> && |lists| <= 128 && DistinctBy(lists, (l: PpkList) => l.name)
                    && forall l :: l in lists ==> NamedKey(l.name, 32) && PpkListOk(l, incomplete)
  {
    hide NamedKey, PpkEntryOk;
    if |lists| > 128 {
      return false;
    }
    var unique := UniqueBy(lists, (l: PpkList) => l.name);
    if !unique {
      return false;
    }
    for i := 0 to |lists|
      invariant forall k :: 0 <= k < i ==> NamedKey(lists[k].name, 32) && PpkListOk(lists[k], incomplete)
    {
      var l := lists[i];
      assert l in lists;
      if !NamedKey(l.name, 32) || |l.entries| > 128 {
        return false;
      }
      var entriesUnique := UniqueBy(l.entries, (e: PpkEntry) => e.id);
      var entriesOk := AllOk(l.entries, e => PpkEntryOk(e, incomplete));
      if !entriesUnique || !entriesOk {
        return false;
      }
    }
    return true;
  }

  method ValidSide(entries: seq<SelectorEntry>, incomplete: bool) returns (ok: bool)
    ensures ok <==> SideOk(entries, incomplete)
  {
    hide SelectorOk;
    if |entries| > 32 {
      return false;
    }
    var unique := UniqueBy(entries, (e: SelectorEntry) => e.id);
    var right := AllOk(entries, e => SelectorOk(e, incomplete));
    return unique && right;
  }

  method ValidateSelectors(lists: seq<SelectorList>, incomplete: bool) returns (ok: bool)
    ensures ok <==> && |lists| <= 32_768 && DistinctBy(lists, (l: SelectorList) => l.name)
                    && forall l :: l in lists ==> SelectorListOk(l, incomplete)
  {
    hide SideOk;
    if |lists| > 32_768 {
      return false;
    }
    var unique := UniqueBy(lists, (l: SelectorList) => l.name);
    if !unique {
      return false;
    }
    for i := 0 to |lists|
      invariant forall k :: 0 <= k < i ==> SelectorListOk(lists[k], incomplete)
    {
      var l := lists[i];
      assert l in lists;
      if |l.name| == 0 || |l.name| > 32 {
        return false;
      }
      var local := ValidSide(l.local, incomplete);
      var remote := ValidSide(l.remote, incomplete);
      if !local || !remote {
        return false;
      }
    }
    return true;
  }

  method ValidateLists(c: Configuration, incomplete: bool) returns (ok: bool)
    ensures ok <==> ListsOk(c, incomplete)
  {
    hide IkeTransformOk, IpsecTransformOk, PolicyOk, StaticSaOk, NamedKey;
    if |c.ikeTransforms| > 4096 || |c.ipsecTransforms| > 2048 || |c.policies| > 2048 || |c.statics| > 1000 {
      return false;
    }
    var ikeUnique := UniqueBy(c.ikeTransforms, (t: IkeTransform) => t.id);
    var ike := AllOk(c.ikeTransforms, (t: IkeTransform) => 1 <= t.id <= 4096 && IkeTransformOk(t));
    var ipsecUnique := UniqueBy(c.ipsecTransforms, (t: IpsecTransform) => t.id);
    var ipsec := AllOk(c.ipsecTransforms, (t: IpsecTransform) => 1 <= t.id <= 2048 && IpsecTransformOk(t));
    var policiesUnique := UniqueBy(c.policies, (p: IkePolicy) => p.id);
    var policies := AllOk(c.policies, (p: IkePolicy) => 1 <= p.id <= 2048 && PolicyOk(p));
    var staticsUnique := UniqueBy(c.statics, (s: StaticSa) => s.name);
    var statics := AllOk(c.statics, (s: StaticSa) => NamedKey(s.name, 32) && StaticSaOk(s, incomplete));
    return ikeUnique && ike && ipsecUnique && ipsec && policiesUnique && policies && staticsUnique && statics;
  }

  method ValidateCredentials(c: Configuration, incomplete: bool) returns (ok: bool)
    ensures ok <==> CredentialsOk(c, incomplete)
  {
    hide CertificateProfileOk, AnchorProfileOk, PpkListOk, SelectorListOk, NamedKey;
    var certificates := ValidateCertificates(c.certificates, incomplete);
    if |c.anchors| > 10_128 {
      return false;
    }
    var anchorsUnique := UniqueBy(c.anchors, (p: TrustAnchorProfile) => p.name);
    var anchors := AllOk(c.anchors, (p: TrustAnchorProfile) => NamedKey(p.name, 32) && AnchorProfileOk(p));
    var ppks := ValidatePpks(c.ppks, incomplete);
    var selectors := ValidateSelectors(c.selectors, incomplete);
    return certificates && anchorsUnique && anchors && ppks && selectors;
  }

  method ValidateProfiles(c: Configuration) returns (ok: bool)
    ensures ok <==> ProfilesOk(c.transports, c.tunnels)
  {
    hide TransportValuesOk, TunnelValuesOk;
    var transports := AllOk(c.transports, TransportValuesOk);
    var transportsUnique := UniqueBy(c.transports, (t: TransportProfile) => t.name);
    if |c.tunnels| > 2048 {
      return false;
    }
    var tunnels := AllOk(c.tunnels, TunnelValuesOk);
    var tunnelsUnique := UniqueBy(c.tunnels, (t: TunnelTemplate) => t.id);
    return transports && transportsUnique && tunnels && tunnelsUnique;
  }

  // ---------------------------------------------------------------- references

  /** Searches as the source's find functions do. */
  method Finds<T, K(==)>(items: seq<T>, key: T -> K, k: K) returns (found: bool)
    ensures found <==> exists x :: x in items && key(x) == k
  {
    for i := 0 to |items|
      invariant forall j :: 0 <= j < i ==> key(items[j]) != k
    {
      if key(items[i]) == k {
        assert items[i] in items;
        return true;
      }
    }
    return false;
  }

  /** Every reference is found and none is repeated. */
  method RefsOk<T>(references: seq<nat>, items: seq<T>, key: T -> nat) returns (ok: bool)
    ensures ok <==> NoRepeats(references) && forall r :: r in references ==> exists t :: t in items && key(t) == r
  {
    for i := 0 to |references|
      invariant forall j, k :: 0 <= j < k < i ==> references[j] != references[k]
      invariant forall k :: 0 <= k < i ==> exists t :: t in items && key(t) == references[k]
    {
      var found := Finds(items, key, references[i]);
      if !found {
        assert references[i] in references;
        return false;
      }
      var repeated := Finds(references[..i], x => x, references[i]);
      if repeated {
        var x :| x in references[..i] && x == references[i];
        return false;
      }
      assert forall j :: 0 <= j < i ==> references[j] in references[..i];
    }
    return true;
  }

  /** The referenced pre-shared-key list has an entry of this id. */
  ghost predicate PpkResolves(c: Configuration, t: TransportProfile) {
    && (t.ppkList != "" ==> HasPpk(c, t.ppkList))
    && (t.ppkId != "" ==> t.ppkList != "" && HasPpkId(c, t.ppkList, t.ppkId))
  }

  method ValidatePpkReference(c: Configuration, t: TransportProfile) returns (ok: bool)
    requires DistinctBy(c.ppks, (l: PpkList) => l.name)
    ensures ok <==> PpkResolves(c, t)
  {
    if t.ppkList == "" {
      return t.ppkId == "";
    }
    for i := 0 to |c.ppks|
      invariant forall k :: 0 <= k < i ==> c.ppks[k].name != t.ppkList
    {
      if c.ppks[i].name == t.ppkList {
        assert c.ppks[i] in c.ppks;
        assert forall l :: l in c.ppks && l.name == t.ppkList ==> l == c.ppks[i];
        if t.ppkId == "" {
          return true;
        }
        ok := Finds(c.ppks[i].entries, (e: PpkEntry) => e.id, t.ppkId);
        return;
      }
    }
    return false;
  }

  method ValidateTransport(c: Configuration, t: TransportProfile) returns (ok: bool)
    requires DistinctBy(c.ppks, (l: PpkList) => l.name)
    ensures ok <==> TransportOk(c, t)
  {
    hide NoRepeats;
    var transforms := RefsOk(t.transforms, c.ipsecTransforms, (x: IpsecTransform) => x.id);
    var policy := Finds(c.policies, (p: IkePolicy) => p.id, t.policy);
    var certificate := Finds(c.certificates, (p: CertificateProfile) => p.name, t.certificate);
    var anchor := Finds(c.anchors, (p: TrustAnchorProfile) => p.name, t.anchor);
    var ppk := ValidatePpkReference(c, t);
    return transforms && (t.policy != 0 ==> policy) && (t.certificate != "" ==> certificate)
           && (t.anchor != "" ==> anchor) && ppk;
  }

  method ValidateReferences(c: Configuration) returns (ok: bool)
    requires DistinctBy(c.ppks, (l: PpkList) => l.name)
    ensures ok <==> ReferencesOk(c)
  {
    hide NoRepeats, DistinctBy, TransportOk;
    for i := 0 to |c.policies|
      invariant forall k :: 0 <= k < i ==> PolicyResolves(c, c.policies[k])
    {
      assert c.policies[i] in c.policies;
      var transforms := RefsOk(c.policies[i].transforms, c.ikeTransforms, (x: IkeTransform) => x.id);
      if !transforms {
        return false;
      }
    }
    for i := 0 to |c.transports|
      invariant forall k :: 0 <= k < i ==> TransportOk(c, c.transports[k])
    {
      assert c.transports[i] in c.transports;
      var transport := ValidateTransport(c, c.transports[i]);
      if !transport {
        return false;
      }
    }
    for i := 0 to |c.tunnels|
      invariant forall k :: 0 <= k < i ==> TunnelOk(c, c.tunnels[k])
    {
      assert c.tunnels[i] in c.tunnels;
      var transforms := RefsOk(c.tunnels[i].transforms, c.ipsecTransforms, (x: IpsecTransform) => x.id);
      var ppk := Finds(c.ppks, (l: PpkList) => l.name, c.tunnels[i].ppkList);
      if !transforms || (c.tunnels[i].ppkList != "" && !ppk) {
        return false;
      }
    }
    return true;
  }

  /** Accepts exactly the configurations that the specification admits. */
  method Validate(c: Configuration, incomplete: bool) returns (ok: bool)
    ensures ok <==> Accepted(c, incomplete)
  {
    hide ListsOk, ProfilesOk, ReferencesOk, CertificateProfileOk, AnchorProfileOk, PpkListOk, SelectorListOk, DistinctBy;
    var lists := ValidateLists(c, incomplete);
    var credentials := ValidateCredentials(c, incomplete);
    var profiles := ValidateProfiles(c);
    if !lists || !credentials || !profiles {
      return false;
    }
    ok := ValidateReferences(c);
  }
}
