/**
 * The mailbox store of a mailbox node: the user/password table loaded at
 * start-up, one mailbox per configured user mapping message ids to mails, and
 * one id counter shared by every mailbox of the node.
 */
module MailStore {
  import opened Optional
  import opened Text
  import opened Mails

  /** One user's mails by id (Java `Map<Long, Mail>`). */
  type Mailbox = map<int, Mail>

  /** The state of the store the methods below change: mailboxes and the counter. */
  datatype Store = Store(boxes: map<string, Mailbox>, idCounter: nat)

  /**
   * The store's invariant: exactly the configured users have a mailbox, every
   * id in use lies in 1..idCounter (so the next id is unused), and no id is in
   * two mailboxes.
   */
  ghost predicate StoreValid(s: Store, users: set<string>) {
    && s.boxes.Keys == users
    && (forall u, id :: u in s.boxes && id in s.boxes[u] ==> 1 <= id <= s.idCounter)
    && (forall u, v, id :: u in s.boxes && v in s.boxes && id in s.boxes[u] && id in s.boxes[v] ==> u == v)
  }

  /** The store right after construction: an empty mailbox per configured user. */
  function InitialStore(passwords: map<string, string>): (s: Store)
    ensures s.boxes.Keys == passwords.Keys
    ensures forall u :: u in s.boxes ==> s.boxes[u] == map[]
    ensures StoreValid(s, passwords.Keys)
  {
    Store(map u | u in passwords :: map[], 0)
  }

  /**
   * saveMail: a user without a mailbox is ignored; otherwise the counter is
   * advanced and the mail is stored under the new counter value.
   */
  function Save(s: Store, user: string, mail: Mail): (r: Store)
    ensures r.boxes.Keys == s.boxes.Keys
    ensures r.idCounter >= s.idCounter
  {
    if user !in s.boxes then s
    else
      var id := s.idCounter + 1;
      Store(s.boxes[user := s.boxes[user][id := mail]], id)
  }

  /**
   * deleteMail: false and no change when the user or the id is unknown,
   * otherwise the id leaves that one mailbox.
   */
  function Delete(s: Store, user: string, id: int): (r: (bool, Store))
    ensures r.1.boxes.Keys == s.boxes.Keys && r.1.idCounter == s.idCounter
  {
    if user !in s.boxes || id !in s.boxes[user] then (false, s)
    else (true, Store(s.boxes[user := s.boxes[user] - {id}], s.idCounter))
  }

  /** loadMail: the mail's display lines, or None for an unknown user or id. */
  function Load(s: Store, user: string, id: int): Option<seq<string>> {
    if user !in s.boxes || id !in s.boxes[user] then None
    else Some(Display(s.boxes[user][id]))
  }

  // ---------------------------------------------------------------------
  // Listing in ascending id order.

  predicate IsMinimum(ids: set<int>, m: int) {
    m in ids && forall x :: x in ids ==> m <= x
  }

  lemma {:induction false} MinimumExists(ids: set<int>)
    requires ids != {}
    ensures exists m :: IsMinimum(ids, m)
    decreases |ids|
  {
    assert exists y :: y in ids by {
      if forall y :: y !in ids { assert false; }
    }
    var x :| x in ids;
    var rest := ids - {x};
    if rest == {} {
      assert ids == {x};
      assert IsMinimum(ids, x);
    } else {
      MinimumExists(rest);
      var m :| IsMinimum(rest, m);
      var least := if x < m then x else m;
      forall y | y in ids ensures least <= y {
        assert y == x || y in rest;
      }
      assert IsMinimum(ids, least);
    }
  }

  /** The ids of a mailbox in ascending order, each exactly once. */
  ghost function SortedIds(ids: set<int>): (r: seq<int>)
    ensures |r| == |ids|
    ensures forall x {:trigger x in r} :: x in r <==> x in ids
    ensures forall i, j :: 0 <= i < j < |r| ==> r[i] < r[j]
    decreases |ids|
  {
    if ids == {} then []
    else
      MinimumExists(ids);
      var m :| IsMinimum(ids, m);
      var t := SortedIds(ids - {m});
      PrependMinimum(ids, m, t);
      [m] + t
  }

  /** The minimum followed by the ascending rest is the ascending whole. */
  lemma PrependMinimum(ids: set<int>, m: int, t: seq<int>)
    requires IsMinimum(ids, m)
    requires |t| == |ids - {m}|
    requires forall x {:trigger x in t} :: x in t <==> x in ids - {m}
    requires forall i, j :: 0 <= i < j < |t| ==> t[i] < t[j]
    ensures |[m] + t| == |ids|
    ensures forall x {:trigger x in [m] + t} :: x in [m] + t <==> x in ids
    ensures forall i, j :: 0 <= i < j < |[m] + t| ==> ([m] + t)[i] < ([m] + t)[j]
  {
    forall i | 0 <= i < |t| ensures m < t[i] { assert t[i] in t; }
    forall x ensures x in [m] + t <==> x in ids { assert x in ids ==> x == m || x in ids - {m}; }
  }

  /** Taking the minimum off the front is how the ascending order starts. */
  lemma SortedIdsFront(ids: set<int>, m: int)
    requires IsMinimum(ids, m)
    ensures SortedIds(ids) == [m] + SortedIds(ids - {m})
  {
    var r := SortedIds(ids);
    assert m in r;
    var k :| 0 <= k < |r| && r[k] == m;
    assert r[0] in r;
    assert r[0] == m;
    var tail := r[1..];
    forall x ensures x in tail <==> x in ids - {m} {
      if x in tail {
        var i :| 0 <= i < |tail| && tail[i] == x;
        assert r[i + 1] == x && x in r;
      }
      if x in ids - {m} {
        assert x in r;
        var i :| 0 <= i < |r| && r[i] == x;
        assert tail[i - 1] == x;
      }
    }
    AscendingUnique(tail, SortedIds(ids - {m}));
    assert r == [m] + tail;
  }

  lemma FirstIsMember(a: seq<int>)
    ensures |a| > 0 ==> a[0] in a
  {
  }

  /** A strictly ascending enumeration of a set is unique. */
  lemma {:induction false} AscendingUnique(a: seq<int>, b: seq<int>)
    requires forall x :: x in a <==> x in b
    requires forall i, j :: 0 <= i < j < |a| ==> a[i] < a[j]
    requires forall i, j :: 0 <= i < j < |b| ==> b[i] < b[j]
    ensures a == b
    decreases |a|
  {
    FirstIsMember(a);
    FirstIsMember(b);
    if |a| > 0 {
      assert a[0] in b && b[0] in a;
      assert a[0] == b[0];
      forall x ensures x in a[1..] <==> x in b[1..] {
        if x in a[1..] {
          var k :| 1 <= k < |a| && a[k] == x;
          assert x in b;
          var k' :| 0 <= k' < |b| && b[k'] == x;
          assert k' != 0;
        }
        if x in b[1..] {
          var k :| 1 <= k < |b| && b[k] == x;
          assert x in a;
          var k' :| 0 <= k' < |a| && a[k'] == x;
          assert k' != 0;
        }
      }
      AscendingUnique(a[1..], b[1..]);
    }
  }

  /** One line of `list`: the id, the sender and the subject. */
  function ListLine(id: int, m: Mail): string {
    IntToString(id) + " " + Show(m.from) + " " + Show(m.subject)
  }

  /** The `list` lines of the given ids of a mailbox, in the order given. */
  function LinesOf(ids: seq<int>, box: Mailbox): (lines: seq<string>)
    requires forall k :: k in ids ==> k in box
    ensures |lines| == |ids|
    decreases |ids|
  {
    if |ids| == 0 then []
    else
      var last := ids[|ids| - 1];
      LinesOf(ids[..|ids| - 1], box) + [ListLine(last, box[last])]
  }

  /** Builds the lines of the given ids one after the other. */
  method LinesFor(ids: seq<int>, box: Mailbox) returns (lines: seq<string>)
    requires forall k :: k in ids ==> k in box
    ensures lines == LinesOf(ids, box)
  {
    lines := [];
    var index := 0;
    while index < |ids|
      invariant 0 <= index <= |ids|
      invariant lines == LinesOf(ids[..index], box)
    {
      var id := ids[index];
      var m := box[id];
      assert ids[..index + 1][..index] == ids[..index];
      lines := lines + [IntToString(id) + " " + Show(m.from) + " " + Show(m.subject)];
      index := index + 1;
    }
    assert ids[..index] == ids;
  }

  /** Mails whose ids are not listed do not change the lines. */
  lemma {:induction false} LinesOfOtherMail(ids: seq<int>, box: Mailbox, id: int, m: Mail)
    requires forall k :: k in ids ==> k in box
    requires id !in ids
    ensures LinesOf(ids, box[id := m]) == LinesOf(ids, box)
    decreases |ids|
  {
    if |ids| > 0 {
      var init := ids[..|ids| - 1];
      assert forall k :: k in init ==> k in ids;
      LinesOfOtherMail(init, box, id, m);
    }
  }

  /** The lines of `list` for one mailbox, in ascending id order. */
  ghost function Listing(box: Mailbox): seq<string> {
    LinesOf(SortedIds(box.Keys), box)
  }

  /** listMail: None for a user without a mailbox, else the listing. */
  ghost function List(s: Store, user: string): Option<seq<string>> {
    if user !in s.boxes then None else Some(Listing(s.boxes[user]))
  }

  /**
   * A mail stored under an id above every id in the mailbox is listed last,
   * after the unchanged lines of the mails already there.
   */
  lemma ListingAfterSave(box: Mailbox, id: int, m: Mail)
    requires forall k :: k in box ==> k < id
    ensures Listing(box[id := m]) == Listing(box) + [ListLine(id, m)]
  {
    var box' := box[id := m];
    var ids := SortedIds(box.Keys);
    var grown := ids + [id];
    assert id !in ids;
    forall i, j | 0 <= i < j < |grown| ensures grown[i] < grown[j] {
      if j == |ids| { assert grown[i] == ids[i] && ids[i] in ids; }
    }
    forall x ensures x in grown <==> x in box'.Keys {
      assert x in grown <==> x in ids || x == id;
    }
    AscendingUnique(grown, SortedIds(box'.Keys));
    assert grown[..|grown| - 1] == ids;
    assert forall k :: k in ids ==> k in box;
    LinesOfOtherMail(ids, box, id, m);
  }

  // ---------------------------------------------------------------------
  // Properties of the store operations.

  /**
   * Saving for a configured user stores the mail under a new id, one above
   * the old counter and above every id in any mailbox; nothing else changes,
   * and the store stays valid. Saving for any other user changes nothing.
   */
  lemma SaveFreshId(s: Store, users: set<string>, user: string, mail: Mail)
    requires StoreValid(s, users)
    ensures user !in users ==> Save(s, user, mail) == s
    ensures user in users ==>
      var r := Save(s, user, mail);
      && r.idCounter == s.idCounter + 1
      && (forall u, k :: u in s.boxes && k in s.boxes[u] ==> k < r.idCounter)
      && r.boxes[user] == s.boxes[user][r.idCounter := mail]
      && (forall u :: u in s.boxes && u != user ==> r.boxes[u] == s.boxes[u])
    ensures StoreValid(Save(s, user, mail), users)
  {
  }

  /** The mail just saved is loaded back under the new id. */
  lemma SaveThenLoad(s: Store, users: set<string>, user: string, mail: Mail)
    requires StoreValid(s, users) && user in users
    ensures Load(Save(s, user, mail), user, s.idCounter + 1) == Some(Display(mail))
    ensures List(Save(s, user, mail), user) == Some(Listing(s.boxes[user]) + [ListLine(s.idCounter + 1, mail)])
  {
    ListingAfterSave(s.boxes[user], s.idCounter + 1, mail);
  }

  /**
   * A delete succeeds exactly when the user has a mail with that id; it then
   * removes that id from that mailbox only, after which the id is no longer
   * loadable while every other mail still is, and the store stays valid.
   */
  lemma DeleteOnlyThatMail(s: Store, users: set<string>, user: string, id: int)
    requires StoreValid(s, users)
    ensures var (ok, r) := Delete(s, user, id);
      && (ok <==> user in s.boxes && id in s.boxes[user])
      && (!ok ==> r == s)
      && StoreValid(r, users)
      && Load(r, user, id) == None
      && (forall u, k :: (u, k) != (user, id) ==> Load(r, u, k) == Load(s, u, k))
  {
  }

  // ---------------------------------------------------------------------
  // Id assignment over any sequence of saves and deletes.

  datatype Op = SaveOp(user: string, mail: Mail) | DeleteOp(user: string, id: int)

  function ApplyOp(s: Store, op: Op): Store {
    match op
    case SaveOp(u, m) => Save(s, u, m)
    case DeleteOp(u, id) => Delete(s, u, id).1
  }

  function ApplyAll(s: Store, ops: seq<Op>): Store
    decreases |ops|
  {
    if |ops| == 0 then s else ApplyAll(ApplyOp(s, ops[0]), ops[1..])
  }

  /** The ids handed out, in order, by the saves of ops that reached a mailbox. */
  function IssuedIds(s: Store, ops: seq<Op>): seq<int>
    decreases |ops|
  {
    if |ops| == 0 then []
    else
      var s' := ApplyOp(s, ops[0]);
      (if ops[0].SaveOp? && ops[0].user in s.boxes then [s'.idCounter] else [])
      + IssuedIds(s', ops[1..])
  }

  /** ids is strictly increasing and every id lies in lo+1..hi. */
  ghost predicate IssuedWithin(ids: seq<int>, lo: int, hi: int) {
    && (forall i :: 0 <= i < |ids| ==> lo < ids[i] <= hi)
    && (forall i, j :: 0 <= i < j < |ids| ==> ids[i] < ids[j])
  }

  lemma IssuedWithinCons(x: int, ids: seq<int>, lo: int, mid: int, hi: int)
    requires IssuedWithin(ids, mid, hi) && lo < x <= mid <= hi
    ensures IssuedWithin([x] + ids, lo, hi)
  {
    var r := [x] + ids;
    forall i, j | 0 <= i < j < |r| ensures r[i] < r[j] {
      assert r[j] == ids[j - 1];
      if i > 0 { assert r[i] == ids[i - 1]; }
    }
  }

  /**
   * Over any sequence of saves and deletes, the ids handed out are strictly
   * increasing and all above the counter at the start (so no id in use or
   * deleted before is handed out again), and the counter never goes back.
   */
  lemma {:induction false} IdsStrictlyIncrease(s: Store, ops: seq<Op>)
    ensures s.idCounter <= ApplyAll(s, ops).idCounter
    ensures IssuedWithin(IssuedIds(s, ops), s.idCounter, ApplyAll(s, ops).idCounter)
    decreases |ops|
  {
    if |ops| > 0 {
      var s' := ApplyOp(s, ops[0]);
      IdsStrictlyIncrease(s', ops[1..]);
      var tail := IssuedIds(s', ops[1..]);
      var hi := ApplyAll(s, ops).idCounter;
      assert s.idCounter <= s'.idCounter;
      if ops[0].SaveOp? && ops[0].user in s.boxes {
        IssuedWithinCons(s'.idCounter, tail, s.idCounter, s'.idCounter, hi);
      }
    }
  }

  // ---------------------------------------------------------------------
  // The store object.

  class UserData {
    /** The user/password table (read-only after start-up). */
    const passwords: map<string, string>
    const componentId: string
    var mails: map<string, Mailbox>
    var idCounter: nat

    function State(): Store
      reads this
    {
      Store(mails, idCounter)
    }

    ghost predicate Valid()
      reads this
    {
      StoreValid(State(), passwords.Keys)
    }

    /** Gives every configured user an empty mailbox. */
    constructor (passwords: map<string, string>, componentId: string)
      ensures this.passwords == passwords && this.componentId == componentId
      ensures State() == InitialStore(passwords)
      ensures Valid()
    {
      this.passwords := passwords;
      this.componentId := componentId;
      mails := map u | u in passwords :: map[];
      idCounter := 0;
    }

    /** The user's password, or None when the user is not configured. */
    function Lookup(username: string): (pw: Option<string>)
      ensures pw.Some? <==> username in passwords
      ensures pw.Some? ==> pw.value == passwords[username]
    {
      if username !in passwords then None else Some(passwords[username])
    }

    method SaveMail(user: string, mail: Mail)
      requires Valid()
      modifies this
      ensures State() == Save(old(State()), user, mail)
      ensures Valid()
    {
      SaveFreshId(State(), passwords.Keys, user, mail);
      if user !in mails {
        return;
      }
      idCounter := idCounter + 1;
      mails := mails[user := mails[user][idCounter := mail]];
    }

    /** The mailbox's ids in ascending order (the sorted stream of the key set). */
    method SortIds(box: Mailbox) returns (ids: seq<int>)
      ensures ids == SortedIds(box.Keys)
    {
      ids := [];
      var rest := box.Keys;
      while rest != {}
        invariant ids + SortedIds(rest) == SortedIds(box.Keys)
        decreases |rest|
      {
        MinimumExists(rest);
        var m :| IsMinimum(rest, m);
        SortedIdsFront(rest, m);
        assert (ids + [m]) + SortedIds(rest - {m}) == ids + ([m] + SortedIds(rest - {m}));
        ids := ids + [m];
        rest := rest - {m};
      }
    }

    /** The user's `list` lines in ascending id order, or None for an unknown user. */
    method ListMail(user: string) returns (r: Option<seq<string>>)
      ensures r == List(State(), user)
    {
      if user !in mails {
        return None;
      }
      var map_ := mails[user];
      var ids := SortIds(map_);
      var lines := LinesFor(ids, map_);
      r := Some(lines);
    }

    method LoadMail(user: string, id: int) returns (r: Option<seq<string>>)
      ensures r == Load(State(), user, id)
    {
      if user !in mails {
        return None;
      }
      var map_ := mails[user];
      if id !in map_ {
        return None;
      }
      return Some(Display(map_[id]));
    }

    method DeleteMail(user: string, id: int) returns (ok: bool)
      requires Valid()
      modifies this
      ensures (ok, State()) == Delete(old(State()), user, id)
      ensures Valid()
    {
      DeleteOnlyThatMail(State(), passwords.Keys, user, id);
      if user !in mails {
        return false;
      }
      var map_ := mails[user];
      if id !in map_ {
        return false;
      }
      mails := mails[user := map_ - {id}];
      return true;
    }
  }
}
