/** The two browser views of one user's exercises (the page and the older
    component): which catalogue entries are offered, the details body of an
    assignment, who sees the edit controls, and what a removal does to the
    list on screen. */
module AssignmentPages {
  import opened Wrappers
  import opened Json
  import opened Seqs
  import opened Entities

  const FailedToLoadAvailable: string := "Failed to load available exercises"

  // ---------------------------------------------------------------------
  // Lists as fetched

  /** What the API helper resolved with: a JSON array of exercises, or some
      other value (it resolves with `{}` on an empty body). */
  datatype Fetched = ListOf(items: seq<Exercise>) | NotAList(value: JsValue)

  /** The page keeps only arrays and shows an empty list for anything else. */
  function PageList(data: Fetched): (r: seq<Exercise>)
    ensures data.ListOf? ==> r == data.items
    ensures data.NotAList? ==> r == []
  {
    match data
    case ListOf(items) => items
    case NotAList(_) => []
  }

  // ---------------------------------------------------------------------
  // The available filter

  function AssignedIds(listed: seq<Exercise>): set<Guid> {
    set e | e in listed :: e.id
  }

  function NotAssigned(listed: seq<Exercise>): Exercise -> bool {
    (e: Exercise) => e.id !in AssignedIds(listed)
  }

  /** The catalogue minus every exercise whose id is already on the list,
      compared by id only, in catalogue order. */
  function Available(catalogue: seq<Exercise>, listed: seq<Exercise>): (r: seq<Exercise>)
    ensures |r| <= |catalogue|
  {
    Filter(catalogue, NotAssigned(listed))
  }

  /** An exercise is offered exactly when it is in the catalogue and no
      listed exercise has its id. */
  lemma AvailableMembers(catalogue: seq<Exercise>, listed: seq<Exercise>, x: Exercise)
    ensures x in Available(catalogue, listed) <==> x in catalogue && forall e | e in listed :: e.id != x.id
  {
    FilterMembers(catalogue, NotAssigned(listed));
    if x in catalogue && forall e | e in listed :: e.id != x.id {
      var k :| 0 <= k < |catalogue| && catalogue[k] == x;
      assert NotAssigned(listed)(catalogue[k]);
    }
    if x in Available(catalogue, listed) {
      assert x.id !in AssignedIds(listed);
    }
  }

  /** The filter keeps catalogue order, runs once to a fixed point, and
      offers the whole catalogue to a user with nothing listed. */
  lemma AvailableShape(a: seq<Exercise>, b: seq<Exercise>, listed: seq<Exercise>)
    ensures Available(a + b, listed) == Available(a, listed) + Available(b, listed)
    ensures Available(Available(a, listed), listed) == Available(a, listed)
    ensures Available(a, []) == a
  {
    FilterConcat(a, b, NotAssigned(listed));
    FilterIdempotent(a, NotAssigned(listed));
    FilterKeepsAll(a, NotAssigned([]));
  }

  /** The component calls `map` on whatever it stored, which throws on a
      non-array and shows the generic message; the page's guard means it
      never meets one. */
  function ComponentAvailable(stored: Fetched, catalogue: seq<Exercise>): (r: Result<seq<Exercise>, string>)
    ensures stored.NotAList? <==> r.Err?
    ensures r.Err? ==> r.error == FailedToLoadAvailable
    ensures r.Ok? ==> r.value == Available(catalogue, PageList(stored))
  {
    match stored
    case NotAList(_) => Err(FailedToLoadAvailable)
    case ListOf(items) => Ok(Available(catalogue, items))
  }

  // ---------------------------------------------------------------------
  // The assign dialog

  /** `parseInt` as the dialog uses it: None stands for NaN. */
  type ParseInt = string -> Option<int>

  datatype Dialog = Dialog(open: bool, selected: Option<Guid>, targetSets: string, targetReps: string, notes: string)

  /** The JSON body posted for an assignment. */
  datatype Details = Details(targetSets: JsValue, targetReps: JsValue, notes: JsValue)

  /** `JSON.stringify` writes NaN as null. */
  function NumberJson(n: Option<int>): (r: JsValue)
    ensures r.JsNull? <==> n.None?
    ensures n.Some? ==> r == JsNumber(n.value)
  {
    match n
    case None => JsNull
    case Some(v) => JsNumber(v)
  }

  /** Blank numbers and blank notes are sent as null; anything else is
      parsed, or sent as typed. */
  function DetailsOf(d: Dialog, parseInt: ParseInt): (r: Details)
    ensures d.targetSets == "" ==> r.targetSets == JsNull
    ensures d.targetSets != "" ==> r.targetSets == NumberJson(parseInt(d.targetSets))
    ensures d.targetReps == "" ==> r.targetReps == JsNull
    ensures d.targetReps != "" ==> r.targetReps == NumberJson(parseInt(d.targetReps))
    ensures r.notes == if d.notes == "" then JsNull else JsString(d.notes)
  {
    Details(if d.targetSets != "" then NumberJson(parseInt(d.targetSets)) else JsNull,
            if d.targetReps != "" then NumberJson(parseInt(d.targetReps)) else JsNull,
            if d.notes != "" then JsString(d.notes) else JsNull)
  }

  /** What `handleSubmit` sends: nothing without a selection, otherwise the
      selected exercise's id and the details. */
  function Submit(d: Dialog, parseInt: ParseInt): (r: Option<(Guid, Details)>)
    ensures r.None? <==> d.selected.None?
    ensures r.Some? ==> r.value.0 == d.selected.value && r.value.1 == DetailsOf(d, parseInt)
  {
    match d.selected
    case None => None
    case Some(id) => Some((id, DetailsOf(d, parseInt)))
  }

  /** The page's reset after a successful assignment: the inputs are cleared
      and the dialog closed. The component resets the same way, but only
      once its refetch of the user's exercises has also succeeded. */
  function AfterAssign(d: Dialog): (r: Dialog)
    ensures !r.open && r.selected.None?
    ensures r.targetSets == "" && r.targetReps == "" && r.notes == ""
  {
    Dialog(false, None, "", "", "")
  }

  /** So pressing assign again right away sends nothing, and a blank dialog
      sends all-null details. */
  lemma AssignedDialogIsInert(d: Dialog, parseInt: ParseInt)
    ensures Submit(AfterAssign(d), parseInt).None?
    ensures DetailsOf(AfterAssign(d), parseInt) == Details(JsNull, JsNull, JsNull)
  {
  }

  /** The assign button is disabled without a selection or with nothing to
      offer. */
  function AssignDisabled(d: Dialog, available: seq<Exercise>): (r: bool)
    ensures !r <==> d.selected.Some? && |available| > 0
  {
    d.selected.None? || |available| == 0
  }

  /** An enabled button always submits something. */
  lemma EnabledButtonSubmits(d: Dialog, available: seq<Exercise>, parseInt: ParseInt)
    requires !AssignDisabled(d, available)
    ensures Submit(d, parseInt).Some?
  {
  }

  // ---------------------------------------------------------------------
  // Role gating

  /** The add button and the delete icons show only for these two roles;
      the comparison is on the role value the context holds. */
  predicate CanManage(userRole: JsValue) {
    userRole == JsString("Admin") || userRole == JsString("Trainer")
  }

  lemma ManageRoles(userRole: JsValue)
    ensures CanManage(userRole) <==> userRole.JsString? && userRole.s in {"Admin", "Trainer"}
    ensures !CanManage(JsNull) && !CanManage(JsString("User"))
  {
  }

  // ---------------------------------------------------------------------
  // Local removal in the component

  function RemoveLocal(list: seq<Exercise>, exerciseId: Guid): (r: seq<Exercise>)
    ensures |r| <= |list|
  {
    Filter(list, (e: Exercise) => e.id != exerciseId)
  }

  /** The entries with that id go and every other entry stays. */
  lemma RemoveLocalMembers(list: seq<Exercise>, exerciseId: Guid, x: Exercise)
    ensures x in RemoveLocal(list, exerciseId) <==> x in list && x.id != exerciseId
  {
    FilterMembers(list, (e: Exercise) => e.id != exerciseId);
  }

  /** Removal keeps order, and a list without that id is left as it was. */
  lemma RemoveLocalShape(a: seq<Exercise>, b: seq<Exercise>, exerciseId: Guid)
    ensures RemoveLocal(a + b, exerciseId) == RemoveLocal(a, exerciseId) + RemoveLocal(b, exerciseId)
    ensures (forall k | 0 <= k < |a| :: a[k].id != exerciseId) ==> RemoveLocal(a, exerciseId) == a
  {
    FilterConcat(a, b, (e: Exercise) => e.id != exerciseId);
    if forall k | 0 <= k < |a| :: a[k].id != exerciseId {
      FilterKeepsAll(a, (e: Exercise) => e.id != exerciseId);
    }
  }

  /** The component drops the entry only once the DELETE succeeded; the API
      helper throws on any status outside 200-299, and then the list on
      screen stays as it was. */
  function ComponentAfterRemove(list: seq<Exercise>, exerciseId: Guid, status: nat): (r: seq<Exercise>)
    ensures 200 <= status < 300 ==> forall x | x in r :: x in list && x.id != exerciseId
    ensures !(200 <= status < 300) ==> r == list
  {
    if 200 <= status < 300 then
      var r := RemoveLocal(list, exerciseId);
      assert forall x | x in r :: x in list && x.id != exerciseId by {
        forall x | x in r
          ensures x in list && x.id != exerciseId
        {
          RemoveLocalMembers(list, exerciseId, x);
        }
      }
      r
    else list
  }
}
