/**
 * The application root: the registry list, the access level and the login
 * dialog flag, the handlers that change them, and the choice of view.
 */
module App {
  import opened Text
  import opened Wrappers
  import opened Constants

  /** The source's `'none' | 'admin' | 'super-admin'`. */
  datatype AuthLevel = Anonymous | Admin | SuperAdmin

  /** `uid_${Date.now()}` for a clock reading of `now` milliseconds. */
  function NewUid(now: nat): (u: string)
    ensures StartsWith(u, "uid_") && |u| > 4
    ensures u[4..] == NatToString(now)
    ensures IsDigits(u[4..]) && DigitsValue(u[4..]) == now
    ensures |u| == 5 || u[4] != '0'
  {
    var u := "uid_" + NatToString(now);
    assert u[4..] == NatToString(now);
    NatToStringRoundTrip(now);
    u
  }

  /** Different clock readings give different uids. */
  lemma NewUidInjective(m: nat, n: nat)
    ensures NewUid(m) == NewUid(n) <==> m == n
  {
  }

  /** The list after `handleAddVip`: the new record, with its identity, in front of the old list. */
  function AddedVips(vips: seq<Vip>, d: VipDraft, uid: string, createdAt: string): (r: seq<Vip>)
    ensures |r| == |vips| + 1 && r[1..] == vips
    ensures r[0].uid == uid && r[0].createdAt == createdAt && DraftOf(r[0]) == d
  {
    [WithIdentity(d, uid, createdAt)] + vips
  }

  /** Adding a record whose uid is new keeps the uids distinct. */
  lemma AddKeepsUidsDistinct(vips: seq<Vip>, d: VipDraft, uid: string, createdAt: string)
    requires UidsDistinct(vips)
    requires forall v :: v in vips ==> v.uid != uid
    ensures UidsDistinct(AddedVips(vips, d, uid, createdAt))
  {
    var r := AddedVips(vips, d, uid, createdAt);
    forall i, j | 0 <= i < j < |r| ensures r[i].uid != r[j].uid {
      assert r[j] == vips[j - 1];
      if i > 0 {
        assert r[i] == vips[i - 1];
      } else {
        assert vips[j - 1] in vips;
      }
    }
  }

  /** The list after `handleUpdateVip`: every record with the updated record's uid is replaced by it. */
  function UpdatedVips(vips: seq<Vip>, updated: Vip): (r: seq<Vip>)
    ensures |r| == |vips|
    ensures forall k :: 0 <= k < |vips| && vips[k].uid != updated.uid ==> r[k] == vips[k]
    ensures forall k :: 0 <= k < |vips| && vips[k].uid == updated.uid ==> r[k] == updated
  {
    if vips == [] then []
    else [if vips[0].uid == updated.uid then updated else vips[0]] + UpdatedVips(vips[1..], updated)
  }

  /** When no uid matches, updating leaves the list as it was. */
  lemma UpdateWithoutMatch(vips: seq<Vip>, updated: Vip)
    requires forall v :: v in vips ==> v.uid != updated.uid
    ensures UpdatedVips(vips, updated) == vips
  {
    var r := UpdatedVips(vips, updated);
    forall k | 0 <= k < |vips| ensures r[k] == vips[k] {
      assert vips[k] in vips;
    }
  }

  /** Updating keeps every position's uid, so distinct uids stay distinct. */
  lemma UpdateKeepsUids(vips: seq<Vip>, updated: Vip)
    ensures forall k :: 0 <= k < |vips| ==> UpdatedVips(vips, updated)[k].uid == vips[k].uid
    ensures UidsDistinct(vips) ==> UidsDistinct(UpdatedVips(vips, updated))
  {
  }

  /** With distinct uids an update changes at most one position. */
  lemma UpdateChangesAtMostOne(vips: seq<Vip>, updated: Vip)
    requires UidsDistinct(vips)
    ensures forall i, j :: 0 <= i < j < |vips| ==>
      UpdatedVips(vips, updated)[i] == vips[i] || UpdatedVips(vips, updated)[j] == vips[j]
  {
  }

  /** Applying the same update twice is the same as applying it once. */
  lemma UpdateIdempotent(vips: seq<Vip>, updated: Vip)
    ensures UpdatedVips(UpdatedVips(vips, updated), updated) == UpdatedVips(vips, updated)
  {
    var once := UpdatedVips(vips, updated);
    var twice := UpdatedVips(once, updated);
    forall k | 0 <= k < |vips| ensures twice[k] == once[k] {
    }
  }

  /** What the current view offers. */
  datatype View =
    | PublicView(records: seq<Vip>)    // the chat search, with the login button
    | AdminPortal                      // add only
    | Dashboard(records: seq<Vip>)     // list, search, add and edit

  /** The view lets its user add records. */
  predicate CanAdd(v: View) {
    v.AdminPortal? || v.Dashboard?
  }

  /** The view lets its user change existing records. */
  predicate CanUpdate(v: View) {
    v.Dashboard?
  }

  /** The records the view can see, if any. */
  function Visible(v: View): Option<seq<Vip>> {
    if v.AdminPortal? then None else Some(v.records)
  }

  /**
   * `renderView`: only the super-admin may update, both admin levels may add,
   * the admin never sees the list, and every other view sees the whole list.
   */
  function RenderView(level: AuthLevel, vips: seq<Vip>): (v: View)
    ensures CanUpdate(v) <==> level == SuperAdmin
    ensures CanAdd(v) <==> level != Anonymous
    ensures Visible(v) == None <==> level == Admin
    ensures level != Admin ==> Visible(v) == Some(vips)
  {
    match level
    case SuperAdmin => Dashboard(vips)
    case Admin => AdminPortal
    case Anonymous => PublicView(vips)
  }

  /** The state the application root holds. */
  class AppState {
    var vips: seq<Vip>
    var authLevel: AuthLevel
    var isLoginModalOpen: bool

    constructor()
      ensures vips == INITIAL_VIP_DATA && authLevel == Anonymous && !isLoginModalOpen
    {
      vips := INITIAL_VIP_DATA;
      authLevel := Anonymous;
      isLoginModalOpen := false;
    }

    /** `handleAddVip`, with the clock reading and its ISO rendering supplied by the caller. */
    method HandleAddVip(d: VipDraft, now: nat, timestamp: string)
      modifies this
      ensures vips == AddedVips(old(vips), d, NewUid(now), timestamp)
      ensures authLevel == old(authLevel) && isLoginModalOpen == old(isLoginModalOpen)
    {
      vips := AddedVips(vips, d, NewUid(now), timestamp);
    }

    /** `handleUpdateVip`. */
    method HandleUpdateVip(updated: Vip)
      modifies this
      ensures vips == UpdatedVips(old(vips), updated)
      ensures authLevel == old(authLevel) && isLoginModalOpen == old(isLoginModalOpen)
    {
      vips := UpdatedVips(vips, updated);
    }

    /**
     * `handleLoginAttempt`: the super-admin PIN is checked first, then the
     * admin PIN; a match sets the level and closes the dialog, and any other
     * PIN changes nothing.
     */
    method HandleLoginAttempt(pin: string)
      modifies this
      ensures pin == SUPER_ADMIN_PIN ==> authLevel == SuperAdmin && !isLoginModalOpen
      ensures pin != SUPER_ADMIN_PIN && pin == ADMIN_PIN ==> authLevel == Admin && !isLoginModalOpen
      ensures pin != SUPER_ADMIN_PIN && pin != ADMIN_PIN ==>
        authLevel == old(authLevel) && isLoginModalOpen == old(isLoginModalOpen)
      ensures vips == old(vips)
    {
      if pin == SUPER_ADMIN_PIN {
        authLevel := SuperAdmin;
        isLoginModalOpen := false;
      } else if pin == ADMIN_PIN {
        authLevel := Admin;
        isLoginModalOpen := false;
      }
    }

    /** `handleLogout`. */
    method HandleLogout()
      modifies this
      ensures authLevel == Anonymous
      ensures vips == old(vips) && isLoginModalOpen == old(isLoginModalOpen)
    {
      authLevel := Anonymous;
    }

    /** The public view's login button. */
    method OpenLoginModal()
      modifies this
      ensures isLoginModalOpen
      ensures vips == old(vips) && authLevel == old(authLevel)
    {
      isLoginModalOpen := true;
    }

    /** The login dialog's close button. */
    method CloseLoginModal()
      modifies this
      ensures !isLoginModalOpen
      ensures vips == old(vips) && authLevel == old(authLevel)
    {
      isLoginModalOpen := false;
    }

    /**
     * The view the root renders for its current state: only a super-admin
     * may update, both admin levels may add, and everyone but the regular
     * admin sees the whole current list.
     */
    function CurrentView(): (v: View)
      reads this
      ensures CanUpdate(v) <==> authLevel == SuperAdmin
      ensures CanAdd(v) <==> authLevel != Anonymous
      ensures Visible(v) == None <==> authLevel == Admin
      ensures authLevel != Admin ==> Visible(v) == Some(vips)
    {
      RenderView(authLevel, vips)
    }
  }
}
