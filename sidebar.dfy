/**
 * The two admin views: the super-admin dashboard with its all-fields search
 * and its add/edit dialog, and the regular admin portal that can only add.
 */
module Sidebar {
  import opened Text
  import opened Wrappers
  import opened Constants
  import opened App

  /** `values.some(value => value.toLowerCase().includes(lowered))`. */
  predicate SomeContains(values: seq<string>, lowered: string) {
    values != [] && (Contains(Lower(values[0]), lowered) || SomeContains(values[1..], lowered))
  }

  /** `some` holds exactly when one of the values contains the term. */
  lemma {:induction false} SomeContainsIff(values: seq<string>, lowered: string)
    ensures SomeContains(values, lowered) <==> exists f :: f in values && Contains(Lower(f), lowered)
  {
    if values != [] {
      SomeContainsIff(values[1..], lowered);
      assert values == [values[0]] + values[1..];
    }
  }

  /** Some field of `v`, as a lower-cased string, contains `lowered`. */
  predicate FieldMatches(v: Vip, lowered: string) {
    SomeContains(FieldStrings(v), lowered)
  }

  /** `vips.filter(...)` with an already lower-cased term. */
  function KeepMatching(vips: seq<Vip>, lowered: string): (r: seq<Vip>)
    ensures Subseq(r, vips)
    ensures forall v :: multiset(r)[v] == if FieldMatches(v, lowered) then multiset(vips)[v] else 0
    ensures forall v :: v in r <==> v in vips && FieldMatches(v, lowered)
  {
    Filter(vips, v => FieldMatches(v, lowered))
  }

  /**
   * `filteredVips`: the records, in registry order, of which some field's
   * lower-cased string form contains the lower-cased search term.
   */
  function FilterVips(vips: seq<Vip>, term: string): (r: seq<Vip>)
    ensures Subseq(r, vips)
    ensures forall v :: v in r <==> v in vips && FieldMatches(v, Lower(term))
    ensures forall v :: multiset(r)[v] == if FieldMatches(v, Lower(term)) then multiset(vips)[v] else 0
  {
    KeepMatching(vips, Lower(term))
  }

  /** Every record matches the empty term. */
  lemma {:induction false} KeepAllOnEmpty(vips: seq<Vip>)
    ensures KeepMatching(vips, []) == vips
  {
    if vips != [] {
      KeepAllOnEmpty(vips[1..]);
      ContainsEmpty(Lower(vips[0].uid));
      SomeContainsIff(FieldStrings(vips[0]), []);
    }
  }

  /** An empty search term keeps every record. */
  lemma EmptyTermKeepsAll(vips: seq<Vip>)
    ensures FilterVips(vips, "") == vips
  {
    assert Lower("") == [];
    KeepAllOnEmpty(vips);
  }

  /** The search does not depend on the case of the term. */
  lemma FilterCaseInsensitive(vips: seq<Vip>, term: string)
    ensures FilterVips(vips, term) == FilterVips(vips, Lower(term))
  {
    LowerIdempotent(term);
  }

  /** What the add/edit dialog hands back: a whole record (it has a uid) or a draft for a new one. */
  datatype SaveData = Existing(vip: Vip) | Fresh(draft: VipDraft)

  /** The super-admin dashboard's own state, and the application state it reports to. */
  class SuperAdminView {
    const app: AppState
    var searchTerm: string
    var isModalOpen: bool
    var editingVip: Option<Vip>

    constructor(app: AppState)
      ensures this.app == app && searchTerm == "" && !isModalOpen && editingVip == None
    {
      this.app := app;
      searchTerm := "";
      isModalOpen := false;
      editingVip := None;
    }

    /**
     * The records the dashboard's table shows: in registry order, each record
     * as often as it occurs in the list when one of its fields contains the
     * search term up to case, and no other record.
     */
    function Shown(): (r: seq<Vip>)
      reads this, app
      ensures Subseq(r, app.vips)
      ensures forall v :: v in r <==> v in app.vips && FieldMatches(v, Lower(searchTerm))
      ensures forall v :: multiset(r)[v] == if FieldMatches(v, Lower(searchTerm)) then multiset(app.vips)[v] else 0
    {
      FilterVips(app.vips, searchTerm)
    }

    /** The search box's `onChange`. */
    method SetSearchTerm(term: string)
      modifies this
      ensures searchTerm == term
      ensures isModalOpen == old(isModalOpen) && editingVip == old(editingVip)
    {
      searchTerm := term;
    }

    /** `handleEdit`: open the dialog on the given record. */
    method HandleEdit(v: Vip)
      modifies this
      ensures editingVip == Some(v) && isModalOpen
      ensures searchTerm == old(searchTerm)
    {
      editingVip := Some(v);
      isModalOpen := true;
    }

    /** `handleAddNew`: open the dialog on no record. */
    method HandleAddNew()
      modifies this
      ensures editingVip == None && isModalOpen
      ensures searchTerm == old(searchTerm)
    {
      editingVip := None;
      isModalOpen := true;
    }

    /**
     * `handleModalSave`: a whole record updates the list, a draft is added
     * to it, and the dialog closes either way.
     */
    method HandleModalSave(data: SaveData, now: nat, timestamp: string)
      modifies this, app
      ensures data.Existing? ==> app.vips == UpdatedVips(old(app.vips), data.vip)
      ensures data.Fresh? ==> app.vips == AddedVips(old(app.vips), data.draft, NewUid(now), timestamp)
      ensures app.authLevel == old(app.authLevel) && app.isLoginModalOpen == old(app.isLoginModalOpen)
      ensures !isModalOpen
      ensures searchTerm == old(searchTerm) && editingVip == old(editingVip)
    {
      match data {
        case Existing(v) => app.HandleUpdateVip(v);
        case Fresh(d) => app.HandleAddVip(d, now, timestamp);
      }
      isModalOpen := false;
    }
  }

  /** The regular admin portal's own state, and the application state it reports to. */
  class RegularAdminView {
    const app: AppState
    var isModalOpen: bool

    constructor(app: AppState)
      ensures this.app == app && !isModalOpen
    {
      this.app := app;
      isModalOpen := false;
    }

    /** The "Add New VIP" button. */
    method OpenModal()
      modifies this
      ensures isModalOpen
    {
      isModalOpen := true;
    }

    /** `handleModalSave`: the draft is always added, and the dialog closes. */
    method HandleModalSave(d: VipDraft, now: nat, timestamp: string)
      modifies this, app
      ensures app.vips == AddedVips(old(app.vips), d, NewUid(now), timestamp)
      ensures app.authLevel == old(app.authLevel) && app.isLoginModalOpen == old(app.isLoginModalOpen)
      ensures !isModalOpen
    {
      app.HandleAddVip(d, now, timestamp);
      isModalOpen := false;
    }
  }
}
