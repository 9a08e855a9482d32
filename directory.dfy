/**
 * The hierarchical nameserver directory. Every nameserver holds a map from a
 * single label to the nameserver of that child zone and a map from a single
 * label to the "ip:port" address of a mailbox server. A dotted name is
 * registered by peeling off its last label, descending into that child zone
 * and registering the rest there; the remote child reference becomes the
 * child zone value itself.
 */
module Directory {
  import opened Optional
  import opened Text

  datatype Zone = Zone(nameservers: map<string, Zone>, mailboxes: map<string, string>)

  /** A nameserver that has just started: nothing registered. */
  const EmptyZone := Zone(map[], map[])

  datatype RegError = AlreadyRegistered(message: string) | InvalidDomain(message: string)

  /** The outcome of a registration: the updated zone, or the exception raised. */
  datatype Registration = Done(zone: Zone) | Refused(error: RegError)

  /**
   * splistLastDomainRest: a name without '.' is returned alone; otherwise the
   * label after the last '.' and the text before it.
   */
  function SplitLastDomainRest(s: string): (parts: seq<string>)
    ensures '.' !in s ==> parts == [s]
    ensures '.' in s ==> |parts| == 2 && '.' !in parts[0] && s == parts[1] + "." + parts[0]
    ensures |parts| == 2 ==> |parts[1]| < |s|
  {
    var k := LastIndexOf(s, '.');
    if k == -1 then [s]
    else
      assert s == s[..k] + "." + s[k + 1..];
      [s[k + 1..], s[..k]]
  }

  /** The labels of a name from the top-level one down, as registration visits them. */
  function Labels(domain: string): (path: seq<string>)
    ensures |path| >= 1
    decreases |domain|
  {
    var split := SplitLastDomainRest(domain);
    if |split| > 1 then [split[0]] + Labels(split[1]) else [domain]
  }

  /** The zones a name passes through before its own label, and that label. */
  function ParentPath(domain: string): seq<string> {
    var path := Labels(domain);
    path[..|path| - 1]
  }

  function Leaf(domain: string): string {
    var path := Labels(domain);
    path[|path| - 1]
  }

  datatype Walked = Reached(zone: Zone) | Missing(name: string)

  /** Follows child nameservers along path; the first label without a child stops the walk. */
  function Walk(z: Zone, path: seq<string>): (w: Walked)
    ensures w.Missing? ==> w.name in path
    decreases |path|
  {
    if |path| == 0 then Reached(z)
    else if path[0] !in z.nameservers then Missing(path[0])
    else Walk(z.nameservers[path[0]], path[1..])
  }

  function NoNameserverText(name: string): string {
    "Nameserver for domain '" + name + "' does not exist."
  }

  function NameserverTakenText(name: string): string {
    "Nameserver for domain '" + name + "' already exists."
  }

  function NoMailboxZoneText(name: string): string {
    "Registering Mailbox: Nameserver for domain '" + name + "' does not exist."
  }

  function MailboxTakenText(name: string): string {
    "Mailbox for domain '" + name + "' already exists."
  }

  /** registerNameserver, on the zone it is called on. */
  function RegisterNameserver(z: Zone, domain: string, ns: Zone): Registration
    decreases |domain|
  {
    var split := SplitLastDomainRest(domain);
    if |split| > 1 then
      if split[0] !in z.nameservers then Refused(InvalidDomain(NoNameserverText(split[0])))
      else
        match RegisterNameserver(z.nameservers[split[0]], split[1], ns)
        case Refused(e) => Refused(e)
        case Done(c) => Done(z.(nameservers := z.nameservers[split[0] := c]))
    else if split[0] in z.nameservers then Refused(AlreadyRegistered(NameserverTakenText(split[0])))
    else Done(z.(nameservers := z.nameservers[split[0] := ns]))
  }

  /** registerMailboxServer, on the zone it is called on. */
  function RegisterMailboxServer(z: Zone, domain: string, address: string): Registration
    decreases |domain|
  {
    var split := SplitLastDomainRest(domain);
    if |split| > 1 then
      if split[0] !in z.nameservers then Refused(InvalidDomain(NoMailboxZoneText(split[0])))
      else
        match RegisterMailboxServer(z.nameservers[split[0]], split[1], address)
        case Refused(e) => Refused(e)
        case Done(c) => Done(z.(nameservers := z.nameservers[split[0] := c]))
    else if split[0] in z.mailboxes then Refused(AlreadyRegistered(MailboxTakenText(split[0])))
    else Done(z.(mailboxes := z.mailboxes[split[0] := address]))
  }

  /** getNameserver: the child zone registered under one label, if any. */
  function GetNameserver(z: Zone, name: string): Option<Zone> {
    if name in z.nameservers then Some(z.nameservers[name]) else None
  }

  /** lookup: the mailbox address registered under one label, if any. */
  function Lookup(z: Zone, name: string): Option<string> {
    if name in z.mailboxes then Some(z.mailboxes[name]) else None
  }

  // ---------------------------------------------------------------------
  // Names and labels.

  function Reverse<T>(s: seq<T>): (r: seq<T>)
    ensures |r| == |s|
    ensures forall i :: 0 <= i < |s| ==> r[i] == s[|s| - 1 - i]
    decreases |s|
  {
    if |s| == 0 then [] else Reverse(s[1..]) + [s[0]]
  }

  /** The dot-joined labels, read back to front, give back the name. */
  lemma LabelsJoin(domain: string)
    ensures Join(Reverse(Labels(domain)), ".") == domain
    ensures Labels(domain) == Reverse(Split(domain, '.'))
  {
    LabelsReverseSplit(domain);
    var parts := Split(domain, '.');
    assert Reverse(Reverse(parts)) == parts;
    JoinSplit(domain, '.');
  }

  lemma {:induction false} LabelsReverseSplit(domain: string)
    ensures Labels(domain) == Reverse(Split(domain, '.'))
    decreases |domain|
  {
    var split := SplitLastDomainRest(domain);
    if |split| > 1 {
      LabelsReverseSplit(split[1]);
      var k := LastIndexOf(domain, '.');
      assert split[0] == domain[k + 1..] && split[1] == domain[..k];
      var init := Split(split[1], '.');
      assert Split(domain, '.') == init + [split[0]];
      ReverseSnoc(init, split[0]);
      assert Labels(domain) == [split[0]] + Labels(split[1]);
    } else {
      assert Split(domain, '.') == [domain];
    }
  }

  lemma ReverseSnoc<T>(s: seq<T>, x: T)
    ensures Reverse(s + [x]) == [x] + Reverse(s)
  {
    var a, b := Reverse(s + [x]), [x] + Reverse(s);
    assert |a| == |b|;
    forall i | 0 <= i < |a| ensures a[i] == b[i] {
      if i > 0 {
        assert a[i] == (s + [x])[|s| - i] == s[|s| - i];
        assert b[i] == Reverse(s)[i - 1] == s[|s| - 1 - (i - 1)];
      }
    }
  }

  /** The path splits into the parent's labels and the leaf label. */
  lemma LabelsParentLeaf(domain: string)
    ensures Labels(domain) == ParentPath(domain) + [Leaf(domain)]
    ensures |SplitLastDomainRest(domain)| > 1 ==>
      var split := SplitLastDomainRest(domain);
      && ParentPath(domain) == [split[0]] + ParentPath(split[1])
      && Leaf(domain) == Leaf(split[1])
    ensures |SplitLastDomainRest(domain)| == 1 ==> ParentPath(domain) == [] && Leaf(domain) == domain
  {
    LabelsSnoc(domain);
    var split := SplitLastDomainRest(domain);
    if |split| > 1 {
      LabelsOfParent(domain, split);
    } else {
      LabelsOfTop(domain, split);
    }
  }

  lemma LabelsSnoc(domain: string)
    ensures Labels(domain) == ParentPath(domain) + [Leaf(domain)]
  {
    var path := Labels(domain);
    assert path == path[..|path| - 1] + [path[|path| - 1]];
  }

  lemma LabelsOfTop(domain: string, split: seq<string>)
    requires split == SplitLastDomainRest(domain) && |split| == 1
    ensures ParentPath(domain) == [] && Leaf(domain) == domain
  {
    assert Labels(domain) == [domain];
  }

  lemma LabelsOfParent(domain: string, split: seq<string>)
    requires split == SplitLastDomainRest(domain) && |split| > 1
    ensures ParentPath(domain) == [split[0]] + ParentPath(split[1])
    ensures Leaf(domain) == Leaf(split[1])
  {
    var path := Labels(domain);
    var tail := Labels(split[1]);
    assert path == [split[0]] + tail;
    assert path[|path| - 1] == tail[|tail| - 1];
    assert path[..|path| - 1] == [split[0]] + tail[..|tail| - 1];
  }

  // ---------------------------------------------------------------------
  // Registration in terms of the path walked.

  /**
   * registerNameserver fails with InvalidDomain naming the first zone on the
   * way that has no nameserver, with AlreadyRegistered when the parent zone
   * already has a nameserver under the leaf label (the entry stays), and
   * otherwise adds the new nameserver under the leaf label of the parent
   * zone, changing nothing else there.
   */
  lemma {:induction false} RegisterNameserverByPath(z: Zone, domain: string, ns: Zone)
    ensures var r := RegisterNameserver(z, domain, ns);
      match Walk(z, ParentPath(domain))
      case Missing(l) => r == Refused(InvalidDomain(NoNameserverText(l)))
      case Reached(n) =>
        && (Leaf(domain) in n.nameservers ==> r == Refused(AlreadyRegistered(NameserverTakenText(Leaf(domain)))))
        && (Leaf(domain) !in n.nameservers ==>
              r.Done? && Walk(r.zone, ParentPath(domain)) == Reached(n.(nameservers := n.nameservers[Leaf(domain) := ns])))
    decreases |domain|
  {
    LabelsParentLeaf(domain);
    var split := SplitLastDomainRest(domain);
    if |split| > 1 && split[0] in z.nameservers {
      RegisterNameserverByPath(z.nameservers[split[0]], split[1], ns);
    }
  }

  /** The same for registerMailboxServer, on the parent zone's mailbox map. */
  lemma {:induction false} RegisterMailboxServerByPath(z: Zone, domain: string, address: string)
    ensures var r := RegisterMailboxServer(z, domain, address);
      match Walk(z, ParentPath(domain))
      case Missing(l) => r == Refused(InvalidDomain(NoMailboxZoneText(l)))
      case Reached(n) =>
        && (Leaf(domain) in n.mailboxes ==> r == Refused(AlreadyRegistered(MailboxTakenText(Leaf(domain)))))
        && (Leaf(domain) !in n.mailboxes ==>
              r.Done? && Walk(r.zone, ParentPath(domain)) == Reached(n.(mailboxes := n.mailboxes[Leaf(domain) := address])))
    decreases |domain|
  {
    LabelsParentLeaf(domain);
    var split := SplitLastDomainRest(domain);
    if |split| > 1 && split[0] in z.nameservers {
      RegisterMailboxServerByPath(z.nameservers[split[0]], split[1], address);
    }
  }

  /**
   * A second registration of the same name is refused with AlreadyRegistered
   * and does not overwrite the first: the first registration's entry is what
   * getNameserver and lookup still return.
   */
  lemma RegisterTwice(z: Zone, domain: string, ns: Zone, ns': Zone, address: string, address': string)
    ensures RegisterNameserver(z, domain, ns).Done? ==>
      var r := RegisterNameserver(z, domain, ns).zone;
      && RegisterNameserver(r, domain, ns') == Refused(AlreadyRegistered(NameserverTakenText(Leaf(domain))))
      && Walk(r, ParentPath(domain)).Reached?
      && GetNameserver(Walk(r, ParentPath(domain)).zone, Leaf(domain)) == Some(ns)
    ensures RegisterMailboxServer(z, domain, address).Done? ==>
      var r := RegisterMailboxServer(z, domain, address).zone;
      && RegisterMailboxServer(r, domain, address') == Refused(AlreadyRegistered(MailboxTakenText(Leaf(domain))))
      && Walk(r, ParentPath(domain)).Reached?
      && Lookup(Walk(r, ParentPath(domain)).zone, Leaf(domain)) == Some(address)
  {
    RegisterNameserverByPath(z, domain, ns);
    if RegisterNameserver(z, domain, ns).Done? {
      RegisterNameserverByPath(RegisterNameserver(z, domain, ns).zone, domain, ns');
    }
    RegisterMailboxServerByPath(z, domain, address);
    if RegisterMailboxServer(z, domain, address).Done? {
      RegisterMailboxServerByPath(RegisterMailboxServer(z, domain, address).zone, domain, address');
    }
  }

  /**
   * Registering a nameserver never changes a mailbox map: every zone
   * reachable before is reachable after, with the same mailboxes; the new
   * nameserver is reachable under the full name.
   */
  lemma RegisterNameserverKeepsMailboxes(z: Zone, domain: string, ns: Zone, q: seq<string>)
    requires RegisterNameserver(z, domain, ns).Done?
    ensures Walk(RegisterNameserver(z, domain, ns).zone, Labels(domain)) == Reached(ns)
    ensures Walk(z, q).Reached? ==>
      var w := Walk(RegisterNameserver(z, domain, ns).zone, q);
      w.Reached? && w.zone.mailboxes == Walk(z, q).zone.mailboxes
  {
    RegisterNameserverReaches(z, domain, ns);
    RegisterNameserverKeepsZones(z, domain, ns, q);
  }

  lemma {:induction false} RegisterNameserverReaches(z: Zone, domain: string, ns: Zone)
    requires RegisterNameserver(z, domain, ns).Done?
    ensures Walk(RegisterNameserver(z, domain, ns).zone, Labels(domain)) == Reached(ns)
    decreases |domain|
  {
    var split := SplitLastDomainRest(domain);
    var r := RegisterNameserver(z, domain, ns).zone;
    var path := Labels(domain);
    if |split| > 1 {
      var child := z.nameservers[split[0]];
      var c := RegisterNameserver(child, split[1], ns).zone;
      assert r == z.(nameservers := z.nameservers[split[0] := c]);
      RegisterNameserverReaches(child, split[1], ns);
      assert path == [split[0]] + Labels(split[1]);
      assert path[0] == split[0] && path[1..] == Labels(split[1]);
    } else {
      assert r == z.(nameservers := z.nameservers[domain := ns]);
      assert path == [domain] && path[1..] == [];
    }
  }

  lemma {:induction false} RegisterNameserverKeepsZones(z: Zone, domain: string, ns: Zone, q: seq<string>)
    requires RegisterNameserver(z, domain, ns).Done?
    ensures Walk(z, q).Reached? ==>
      var w := Walk(RegisterNameserver(z, domain, ns).zone, q);
      w.Reached? && w.zone.mailboxes == Walk(z, q).zone.mailboxes
    decreases |domain|
  {
    var split := SplitLastDomainRest(domain);
    var r := RegisterNameserver(z, domain, ns).zone;
    if |split| > 1 {
      var child := z.nameservers[split[0]];
      var c := RegisterNameserver(child, split[1], ns).zone;
      assert r == z.(nameservers := z.nameservers[split[0] := c]);
      if |q| > 0 && q[0] == split[0] {
        RegisterNameserverKeepsZones(child, split[1], ns, q[1..]);
        assert SameMailboxes(child, c, q[1..]);
        MailboxesDescend(z, r, split[0], c, q);
      } else {
        MailboxesAside(z, r, split[0], c, q);
      }
    } else {
      assert r == z.(nameservers := z.nameservers[domain := ns]) && domain !in z.nameservers;
      MailboxesAside(z, r, domain, ns, q);
    }
    assert SameMailboxes(z, r, q);
  }

  /** Every zone reached along q before is reached after, with the same mailboxes. */
  ghost predicate SameMailboxes(before: Zone, after: Zone, q: seq<string>) {
    Walk(before, q).Reached? ==>
      var w := Walk(after, q);
      w.Reached? && w.zone.mailboxes == Walk(before, q).zone.mailboxes
  }

  lemma MailboxesDescend(z: Zone, r: Zone, name: string, c: Zone, q: seq<string>)
    requires name in z.nameservers && r == z.(nameservers := z.nameservers[name := c])
    requires |q| > 0 && q[0] == name
    requires SameMailboxes(z.nameservers[name], c, q[1..])
    ensures SameMailboxes(z, r, q)
  {
  }

  /** Replacing or adding the child under a name leaves every walk that avoids it alone. */
  lemma MailboxesAside(z: Zone, r: Zone, name: string, c: Zone, q: seq<string>)
    requires r == z.(nameservers := z.nameservers[name := c])
    requires |q| == 0 || q[0] != name || name !in z.nameservers
    ensures SameMailboxes(z, r, q)
  {
    if |q| > 0 && q[0] != name {
      assert Walk(r, q) == Walk(z, q);
    }
  }

  /**
   * Registering a mailbox server never changes a nameserver map's labels:
   * exactly the same zones are reachable, each with the same child labels,
   * and every zone except the parent of the name keeps its mailboxes.
   */
  lemma {:induction false} RegisterMailboxKeepsNameservers(z: Zone, domain: string, address: string, q: seq<string>)
    requires RegisterMailboxServer(z, domain, address).Done?
    ensures var w := Walk(RegisterMailboxServer(z, domain, address).zone, q);
      && (w.Reached? <==> Walk(z, q).Reached?)
      && (w.Reached? ==> w.zone.nameservers.Keys == Walk(z, q).zone.nameservers.Keys)
      && (w.Reached? && q != ParentPath(domain) ==> w.zone.mailboxes == Walk(z, q).zone.mailboxes)
    decreases |domain|
  {
    var split := SplitLastDomainRest(domain);
    var r := RegisterMailboxServer(z, domain, address).zone;
    if |split| > 1 {
      var child := z.nameservers[split[0]];
      var c := RegisterMailboxServer(child, split[1], address).zone;
      assert r == z.(nameservers := z.nameservers[split[0] := c]);
      LabelsOfParent(domain, split);
      if |q| > 0 && q[0] == split[0] {
        RegisterMailboxKeepsNameservers(child, split[1], address, q[1..]);
        assert SameLabels(child, c, q[1..], ParentPath(split[1]));
        WalkDescends(z, r, split[0], c, q, ParentPath(split[1]));
      } else {
        WalkAside(z, r, split[0], c, q, ParentPath(domain));
      }
    } else {
      LabelsOfTop(domain, split);
      WalkTop(z, r, domain, address, q);
    }
    assert SameLabels(z, r, q, ParentPath(domain));
  }

  /** What a mailbox registration keeps along the path q. */
  ghost predicate SameLabels(before: Zone, after: Zone, q: seq<string>, parent: seq<string>) {
    var w := Walk(after, q);
    && (w.Reached? <==> Walk(before, q).Reached?)
    && (w.Reached? ==> w.zone.nameservers.Keys == Walk(before, q).zone.nameservers.Keys)
    && (w.Reached? && q != parent ==> w.zone.mailboxes == Walk(before, q).zone.mailboxes)
  }

  lemma WalkDescends(z: Zone, r: Zone, name: string, c: Zone, q: seq<string>, pp: seq<string>)
    requires name in z.nameservers && r == z.(nameservers := z.nameservers[name := c])
    requires |q| > 0 && q[0] == name
    requires SameLabels(z.nameservers[name], c, q[1..], pp)
    ensures SameLabels(z, r, q, [name] + pp)
  {
    assert q != [name] + pp ==> q[1..] != pp;
  }

  lemma WalkAside(z: Zone, r: Zone, name: string, c: Zone, q: seq<string>, parent: seq<string>)
    requires name in z.nameservers && r == z.(nameservers := z.nameservers[name := c])
    requires |q| == 0 || q[0] != name
    ensures SameLabels(z, r, q, parent)
  {
    if |q| > 0 {
      assert Walk(r, q) == Walk(z, q);
    }
  }

  lemma WalkTop(z: Zone, r: Zone, name: string, address: string, q: seq<string>)
    requires r == z.(mailboxes := z.mailboxes[name := address])
    ensures SameLabels(z, r, q, [])
  {
    if |q| > 0 {
      assert Walk(r, q) == Walk(z, q);
    }
  }
}
