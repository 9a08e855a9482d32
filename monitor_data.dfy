/**
 * The monitoring server's usage counters: how many delivery notices named
 * each sender address and each transfer server, and listings of either
 * counter ordered by descending count.
 */
module Monitoring {
  import opened Text

  /** A counter: how often each key was reported. */
  type Counts = map<string, nat>

  /** One report of a key: an absent key counts as 0 before it. */
  function Bump(m: Counts, key: string): (r: Counts)
    ensures key in r && r[key] == (if key in m then m[key] else 0) + 1
    ensures r.Keys == m.Keys + {key}
    ensures forall k :: k in m && k != key ==> r[k] == m[k]
  {
    m[key := (if key in m then m[key] else 0) + 1]
  }

  /** A delivery notice: the transfer server ("ip:port") and the sender address. */
  datatype Notice = Notice(server: string, address: string)

  /** The counter built from a sequence of reports, the last one applied last. */
  function Tally(keys: seq<string>): Counts
    decreases |keys|
  {
    if |keys| == 0 then map[] else Bump(Tally(keys[..|keys| - 1]), keys[|keys| - 1])
  }

  /** How many of the reports name the key. */
  function Occurrences(keys: seq<string>, key: string): nat
    decreases |keys|
  {
    if |keys| == 0 then 0
    else Occurrences(keys[..|keys| - 1], key) + (if keys[|keys| - 1] == key then 1 else 0)
  }

  /** A counter records exactly the reported keys, each with the number of its reports. */
  lemma {:induction false} TallyCounts(keys: seq<string>, key: string)
    ensures key in Tally(keys) <==> Occurrences(keys, key) > 0
    ensures key in Tally(keys) ==> Tally(keys)[key] == Occurrences(keys, key)
    decreases |keys|
  {
    if |keys| > 0 {
      TallyCounts(keys[..|keys| - 1], key);
    }
  }

  function Addresses(notices: seq<Notice>): seq<string> {
    seq(|notices|, i requires 0 <= i < |notices| => notices[i].address)
  }

  function Servers(notices: seq<Notice>): seq<string> {
    seq(|notices|, i requires 0 <= i < |notices| => notices[i].server)
  }

  /** One listed line: the key, a space and its count. */
  function Line(key: string, count: nat): string {
    key + " " + NatToString(count)
  }

  /** Different keys, or different counts, never give the same line. */
  lemma LineInjective(k1: string, c1: nat, k2: string, c2: nat)
    requires Line(k1, c1) == Line(k2, c2)
    ensures k1 == k2 && c1 == c2
  {
    var d1, d2 := NatToString(c1), NatToString(c2);
    assert ' ' !in d1 by { assert !IsDigit(' '); }
    assert ' ' !in d2 by { assert !IsDigit(' '); }
    assert Line(k1, c1) == k1 + [' '] + d1;
    assert Line(k2, c2) == k2 + [' '] + d2;
    LastIndexOfAppend(k1, ' ', d1);
    LastIndexOfAppend(k2, ' ', d2);
    var line := Line(k1, c1);
    assert k1 == line[..|k1|] == k2;
    assert d1 == line[|k1| + 1..] == d2;
    NatToStringValue(c1);
    NatToStringValue(c2);
  }

  /** Every element of the sequence is a key of the counter. */
  predicate AllCounted(keys: seq<string>, m: Counts) {
    forall i :: 0 <= i < |keys| ==> keys[i] in m
  }

  predicate Distinct(keys: seq<string>) {
    forall i, j :: 0 <= i < j < |keys| ==> keys[i] != keys[j]
  }

  predicate Descending(keys: seq<string>, m: Counts)
    requires AllCounted(keys, m)
  {
    forall i, j :: 0 <= i < j < |keys| ==> m[keys[i]] >= m[keys[j]]
  }

  /** The keys of the counter, each once, in non-increasing order of count. */
  ghost predicate IsRanking(m: Counts, keys: seq<string>) {
    && AllCounted(keys, m)
    && (forall k :: k in m ==> k in keys)
    && Distinct(keys)
    && Descending(keys, m)
  }

  /**
   * A listing of a counter: one "<key> <count>" line per key, ordered by
   * non-increasing count. Keys with equal counts may come in any order.
   */
  ghost predicate Listing(m: Counts, lines: seq<string>) {
    exists keys :: RankedLines(m, keys, lines)
  }

  /** A sequence of distinct elements is as long as the set of its elements. */
  lemma {:induction false} DistinctCardinality(keys: seq<string>)
    requires forall i, j :: 0 <= i < j < |keys| ==> keys[i] != keys[j]
    ensures |set k | k in keys| == |keys|
    decreases |keys|
  {
    if |keys| > 0 {
      var front := keys[..|keys| - 1];
      DistinctCardinality(front);
      var last := keys[|keys| - 1];
      assert (set k | k in keys) == (set k | k in front) + {last};
      assert last !in front;
    }
  }

  /** The lines of a ranking of the keys. */
  ghost predicate RankedLines(m: Counts, keys: seq<string>, lines: seq<string>) {
    IsRanking(m, keys) && |lines| == |keys| &&
    forall i :: 0 <= i < |keys| ==> lines[i] == Line(keys[i], m[keys[i]])
  }

  lemma RankedLinesCover(m: Counts, keys: seq<string>, lines: seq<string>)
    requires RankedLines(m, keys, lines)
    ensures |lines| == |m|
    ensures forall k :: k in m ==> Line(k, m[k]) in lines
  {
    DistinctCardinality(keys);
    assert (set k | k in keys) == m.Keys;
    forall k | k in m
      ensures Line(k, m[k]) in lines
    {
      var i :| 0 <= i < |keys| && keys[i] == k;
      assert lines[i] == Line(k, m[k]);
    }
  }

  lemma RankedLinesDistinct(m: Counts, keys: seq<string>, lines: seq<string>)
    requires RankedLines(m, keys, lines)
    ensures forall i, j :: 0 <= i < j < |lines| ==> lines[i] != lines[j]
  {
    forall i, j | 0 <= i < j < |lines|
      ensures lines[i] != lines[j]
    {
      if lines[i] == lines[j] {
        LineInjective(keys[i], m[keys[i]], keys[j], m[keys[j]]);
      }
    }
  }

  /**
   * A listing has exactly one line per key, each carrying that key's count,
   * and no two of its lines are the same.
   */
  lemma ListingExact(m: Counts, lines: seq<string>)
    requires Listing(m, lines)
    ensures |lines| == |m|
    ensures forall k :: k in m ==> Line(k, m[k]) in lines
    ensures forall i, j :: 0 <= i < j < |lines| ==> lines[i] != lines[j]
  {
    var keys :| RankedLines(m, keys, lines);
    RankedLinesCover(m, keys, lines);
    RankedLinesDistinct(m, keys, lines);
  }

  /** The place of a key among keys in non-increasing count order: after every key counted at least as often. */
  function InsertByCount(keys: seq<string>, key: string, m: Counts): (r: seq<string>)
    requires key in m && AllCounted(keys, m)
    ensures |r| == |keys| + 1 && AllCounted(r, m)
    ensures forall x :: x in r <==> x in keys || x == key
    decreases |keys|
  {
    if |keys| == 0 then [key]
    else if m[keys[0]] >= m[key] then [keys[0]] + InsertByCount(keys[1..], key, m)
    else [key] + keys
  }

  /** Inserting a new key keeps the keys distinct and in non-increasing count order. */
  lemma {:induction false} InsertKeepsRanking(keys: seq<string>, key: string, m: Counts)
    requires key in m && key !in keys && AllCounted(keys, m)
    requires Distinct(keys) && Descending(keys, m)
    ensures Distinct(InsertByCount(keys, key, m)) && Descending(InsertByCount(keys, key, m), m)
    decreases |keys|
  {
    if |keys| == 0 {
    } else if m[keys[0]] >= m[key] {
      var rest := keys[1..];
      InsertKeepsRanking(rest, key, m);
      var tail := InsertByCount(rest, key, m);
      forall y | y in tail ensures y != keys[0] && m[keys[0]] >= m[y] {
        if y != key {
          var l :| 0 <= l < |rest| && rest[l] == y;
          assert keys[l + 1] == y;
        }
      }
      RankedCons(keys[0], tail, m);
    } else {
      forall y | y in keys ensures y != key && m[key] >= m[y] {
        var l :| 0 <= l < |keys| && keys[l] == y;
        assert l == 0 || m[keys[0]] >= m[keys[l]];
      }
      RankedCons(key, keys, m);
    }
  }

  /** A key counted at least as often as every key of a ranking, and not among them, can go in front. */
  lemma RankedCons(x: string, t: seq<string>, m: Counts)
    requires x in m && AllCounted(t, m) && Distinct(t) && Descending(t, m)
    requires forall y :: y in t ==> y != x && m[x] >= m[y]
    ensures AllCounted([x] + t, m) && Distinct([x] + t) && Descending([x] + t, m)
  {
    var r := [x] + t;
    forall i, j | 0 <= i < j < |r|
      ensures r[i] != r[j] && m[r[i]] >= m[r[j]]
    {
      assert r[j] == t[j - 1];
      if i > 0 {
        assert r[i] == t[i - 1];
      } else {
        assert t[j - 1] in t;
      }
    }
  }

  /** Sorting the keys of a counter by descending count (equal counts in any order). */
  method SortKeys(m: Counts) returns (keys: seq<string>)
    ensures IsRanking(m, keys)
  {
    keys := [];
    var remaining := m.Keys;
    while remaining != {}
      invariant AllCounted(keys, m) && Distinct(keys) && Descending(keys, m)
      invariant forall k :: k in keys ==> k !in remaining
      invariant forall k :: k in m ==> k in keys || k in remaining
      invariant remaining <= m.Keys
      decreases |remaining|
    {
      var key :| key in remaining;
      InsertKeepsRanking(keys, key, m);
      keys := InsertByCount(keys, key, m);
      remaining := remaining - {key};
    }
  }

  /** get: the counter's keys sorted by descending count, rendered one line each into a new array. */
  method Get(container: Counts) returns (ret: array<string>)
    ensures fresh(ret) && Listing(container, ret[..])
  {
    var keys := SortKeys(container);
    ret := new string[|keys|];
    var index := 0;
    while index < |keys|
      invariant 0 <= index <= |keys| && ret.Length == |keys|
      invariant forall i :: 0 <= i < index ==> ret[i] == Line(keys[i], container[keys[i]])
    {
      ret[index] := Line(keys[index], container[keys[index]]);
      index := index + 1;
    }
    assert RankedLines(container, keys, ret[..]);
  }

  /** The two counters of a monitoring server. */
  class MonitorData {
    var addresses: Counts
    var servers: Counts

    constructor()
      ensures addresses == map[] && servers == map[]
    {
      addresses := map[];
      servers := map[];
    }

    /** add: one delivery notice raises the count of its address and of its server by one. */
    method Add(server: string, address: string)
      modifies this
      ensures addresses == Bump(old(addresses), address)
      ensures servers == Bump(old(servers), server)
    {
      var a := 0;
      if address in addresses {
        a := addresses[address];
      }
      addresses := addresses[address := a + 1];
      var s := 0;
      if server in servers {
        s := servers[server];
      }
      servers := servers[server := s + 1];
    }

    /** getAddresses: the listing of the address counter; neither counter changes. */
    method GetAddresses() returns (ret: array<string>)
      ensures fresh(ret) && Listing(addresses, ret[..]) && unchanged(this)
    {
      ret := Get(addresses);
    }

    /** getServers: the listing of the server counter; neither counter changes. */
    method GetServers() returns (ret: array<string>)
      ensures fresh(ret) && Listing(servers, ret[..]) && unchanged(this)
    {
      ret := Get(servers);
    }
  }

  /**
   * After a fresh monitor took a sequence of notices, each counter holds
   * exactly the tally of the addresses, resp. servers, of those notices.
   */
  method Replay(notices: seq<Notice>) returns (data: MonitorData)
    ensures fresh(data)
    ensures data.addresses == Tally(Addresses(notices))
    ensures data.servers == Tally(Servers(notices))
  {
    data := new MonitorData();
    var i := 0;
    while i < |notices|
      invariant 0 <= i <= |notices|
      invariant data.addresses == Tally(Addresses(notices[..i]))
      invariant data.servers == Tally(Servers(notices[..i]))
    {
      assert Addresses(notices[..i + 1])[..i] == Addresses(notices[..i]);
      assert Servers(notices[..i + 1])[..i] == Servers(notices[..i]);
      data.Add(notices[i].server, notices[i].address);
      i := i + 1;
    }
    assert notices[..i] == notices;
  }
}
