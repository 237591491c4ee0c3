/**
 * The favourites relation kept twice: the account's `favoris` lists
 * listings, the listing's `favoris` lists accounts, and `toggleFavori`
 * updates both with `indexOf`, `splice` and `push`.
 */
module Favourites {
  import opened Base
  import opened JsOps

  /** The two arrays `toggleFavori` edits: the account's favourites and the listing's. */
  datatype Favs = Favs(user: seq<Id>, property: seq<Id>)

  /**
   * The edit of `toggleFavori` for account `uid` and listing `pid`: when
   * the listing is among the account's favourites, splice it out there and
   * splice out the position of the account in the listing's array (which
   * is -1, the last element, when the account is missing); otherwise push
   * each id onto the other's array.
   */
  function Toggle(f: Favs, pid: Id, uid: Id): (r: Favs)
    ensures pid in f.user ==>
      (r.user == SpliceOne(f.user, IndexOf(f.user, pid)) && r.property == SpliceOne(f.property, IndexOf(f.property, uid)))
    ensures pid !in f.user ==> r == Favs(f.user + [pid], f.property + [uid])
  {
    var iu := IndexOf(f.user, pid);
    if iu != -1 then Favs(SpliceOne(f.user, iu), SpliceOne(f.property, IndexOf(f.property, uid)))
    else Favs(f.user + [pid], f.property + [uid])
  }

  /** The two arrays agree about the pair (uid, pid), and neither holds it twice. */
  predicate Synced(f: Favs, pid: Id, uid: Id)
  {
    Count(f.user, pid) <= 1 && Count(f.property, uid) <= 1
    && (pid in f.user <==> uid in f.property)
  }

  /** Removing position k lowers the count of the value found there by one and leaves every other count alone. */
  lemma CountRemoveAt(s: seq<Id>, k: nat, x: Id)
    requires k < |s|
    ensures Count(s[..k] + s[k + 1..], x) == Count(s, x) - (if s[k] == x then 1 else 0)
  {
    assert s == s[..k] + ([s[k]] + s[k + 1..]);
    CountAppend(s[..k], [s[k]] + s[k + 1..], x);
    CountAppend([s[k]], s[k + 1..], x);
    CountAppend(s[..k], s[k + 1..], x);
    assert [s[k]][1..] == [];
  }

  /** Pushing y adds one to the count of y and to no other count. */
  lemma CountPush(s: seq<Id>, y: Id, x: Id)
    ensures Count(s + [y], x) == Count(s, x) + (if x == y then 1 else 0)
  {
    CountAppend(s, [y], x);
    assert [y][1..] == [];
  }

  /**
   * On synced arrays, the toggle flips the pair in both arrays (present
   * exactly once after adding, absent after removing) and changes the count
   * of no other id in either array.
   */
  lemma ToggleCounts(f: Favs, pid: Id, uid: Id, x: Id)
    requires Synced(f, pid, uid)
    ensures Count(Toggle(f, pid, uid).user, x) == if x == pid then 1 - Count(f.user, pid) else Count(f.user, x)
    ensures Count(Toggle(f, pid, uid).property, x) == if x == uid then 1 - Count(f.property, uid) else Count(f.property, x)
  {
    CountZero(f.user, pid);
    CountZero(f.property, uid);
    if pid in f.user {
      CountRemoveAt(f.user, IndexOf(f.user, pid), x);
      CountRemoveAt(f.property, IndexOf(f.property, uid), x);
    } else {
      CountPush(f.user, pid, x);
      CountPush(f.property, uid, x);
    }
  }

  /** The toggle keeps the arrays synced, and flips whether the listing is a favourite of the account. */
  lemma ToggleKeepsSynced(f: Favs, pid: Id, uid: Id)
    requires Synced(f, pid, uid)
    ensures Synced(Toggle(f, pid, uid), pid, uid)
    ensures pid in Toggle(f, pid, uid).user <==> pid !in f.user
    ensures uid in Toggle(f, pid, uid).property <==> uid !in f.property
  {
    var g := Toggle(f, pid, uid);
    ToggleCounts(f, pid, uid, pid);
    ToggleCounts(f, pid, uid, uid);
    CountZero(f.user, pid);
    CountZero(f.property, uid);
    CountZero(g.user, pid);
    CountZero(g.property, uid);
  }

  /** Toggling twice gives every id in either array its original count back. */
  lemma ToggleTwiceCounts(f: Favs, pid: Id, uid: Id, x: Id)
    requires Synced(f, pid, uid)
    ensures Count(Toggle(Toggle(f, pid, uid), pid, uid).user, x) == Count(f.user, x)
    ensures Count(Toggle(Toggle(f, pid, uid), pid, uid).property, x) == Count(f.property, x)
  {
    ToggleKeepsSynced(f, pid, uid);
    ToggleCounts(f, pid, uid, x);
    ToggleCounts(Toggle(f, pid, uid), pid, uid, x);
  }

  /** Adding then removing a favourite restores both arrays exactly. */
  lemma AddThenRemove(f: Favs, pid: Id, uid: Id)
    requires pid !in f.user && uid !in f.property
    ensures Toggle(Toggle(f, pid, uid), pid, uid) == f
  {
    var g := Toggle(f, pid, uid);
    assert IndexOf(g.user, pid) == |f.user| by {
      assert g.user[|f.user|] == pid;
      assert g.user[..|f.user|] == f.user;
    }
    assert IndexOf(g.property, uid) == |f.property| by {
      assert g.property[|f.property|] == uid;
      assert g.property[..|f.property|] == f.property;
    }
    assert g.user[..|f.user|] == f.user;
    assert g.property[..|f.property|] == f.property;
  }

  /**
   * When the arrays disagree (the listing is a favourite of the account,
   * but the account is missing from the listing's array), `indexOf` gives
   * -1 and `splice(-1, 1)` drops the last account of the listing's array,
   * which is another account.
   */
  lemma BrokenSyncDropsLast(f: Favs, pid: Id, uid: Id)
    requires pid in f.user && uid !in f.property && |f.property| > 0
    ensures Toggle(f, pid, uid).property == f.property[..|f.property| - 1]
    ensures f.property[|f.property| - 1] != uid
    ensures Count(Toggle(f, pid, uid).property, f.property[|f.property| - 1]) == Count(f.property, f.property[|f.property| - 1]) - 1
  {
    var s := f.property;
    assert s == s[..|s| - 1] + [s[|s| - 1]];
    CountPush(s[..|s| - 1], s[|s| - 1], s[|s| - 1]);
  }
}
