/**
 * The application shell's choice of the active workspace ("org"): the workspaces the
 * signed-in user belongs to, the pick between the id kept in local storage and the
 * first workspace, and the write-back of the pick. Local storage is a parameter: its
 * `active_org_id` entry is `None` when absent.
 */
module ActiveOrg {
  import opened Wrappers

  /** `Org` */
  datatype Org = Org(id: string, name: string, createdAt: string)

  /** `(data ?? []).map(r => r.orgs).filter(Boolean)`: the joined workspaces of the
      membership rows, a missing join (`null`) dropped. */
  function PresentOrgs(rows: seq<Option<Org>>): (orgs: seq<Org>)
    ensures forall o :: o in orgs <==> Some(o) in rows
    ensures |orgs| <= |rows|
  {
    if rows == [] then []
    else
      var rest := PresentOrgs(rows[1..]);
      assert rows == [rows[0]] + rows[1..];
      (if rows[0].Some? then [rows[0].value] else []) + rest
  }

  /** The filter keeps the membership order: it distributes over concatenation. */
  lemma {:induction false} PresentOrgsKeepOrder(a: seq<Option<Org>>, b: seq<Option<Org>>)
    ensures PresentOrgs(a + b) == PresentOrgs(a) + PresentOrgs(b)
  {
    if a == [] {
      assert a + b == b;
    } else {
      assert (a + b)[1..] == a[1..] + b;
      PresentOrgsKeepOrder(a[1..], b);
    }
  }

  predicate HasOrg(orgs: seq<Org>, id: string) {
    exists i :: 0 <= i < |orgs| && orgs[i].id == id
  }

  /** `stored && rows.find(o => o.id === stored) ? stored : (rows[0]?.id ?? "")`: the
      stored id while it names one of the workspaces, otherwise the first workspace,
      otherwise "". Whatever is picked is "" or the id of a listed workspace. */
  function PickActive(orgs: seq<Org>, stored: Option<string>): (id: string)
    ensures id == "" || HasOrg(orgs, id)
    ensures stored.Some? && stored.value != "" && HasOrg(orgs, stored.value) ==> id == stored.value
    ensures !(stored.Some? && stored.value != "" && HasOrg(orgs, stored.value)) ==>
      id == if orgs == [] then "" else orgs[0].id
  {
    if stored.Some? && stored.value != "" && HasOrg(orgs, stored.value) then stored.value
    else if orgs == [] then ""
    else orgs[0].id
  }

  /** With workspace ids never blank, nothing is picked exactly when there is no
      workspace to pick. */
  lemma PickEmptyOnlyWithoutOrgs(orgs: seq<Org>, stored: Option<string>)
    requires forall i :: 0 <= i < |orgs| ==> orgs[i].id != ""
    ensures PickActive(orgs, stored) == "" <==> orgs == []
  {
  }

  /** `if (activeOrgId) localStorage.setItem("active_org_id", activeOrgId)`: only a
      non-blank selection is written; a blank one leaves the stored entry alone. */
  function Persist(stored: Option<string>, active: string): Option<string> {
    if active != "" then Some(active) else stored
  }

  /** `localStorage.getItem("active_org_id") || ""`: the workspace the pages read. */
  function PageOrgId(stored: Option<string>): string {
    stored.GetOr("")
  }

  /** Picking, writing the pick back and picking again over the same workspaces
      chooses the same workspace: the choice survives a reload. */
  lemma PickSurvivesReload(orgs: seq<Org>, stored: Option<string>)
    ensures PickActive(orgs, Persist(stored, PickActive(orgs, stored))) == PickActive(orgs, stored)
  {
  }

  /** Once a non-blank pick is written back, a read of the stored entry, as a page
      makes when it mounts, returns that pick. */
  lemma PagesSeePick(orgs: seq<Org>, stored: Option<string>)
    requires PickActive(orgs, stored) != ""
    ensures PageOrgId(Persist(stored, PickActive(orgs, stored))) == PickActive(orgs, stored)
  {
  }

  /** A blank selection is never written: the stored entry, and so what the pages
      read, stays as it was. */
  lemma BlankSelectionNotPersisted(stored: Option<string>)
    ensures Persist(stored, "") == stored
    ensures PageOrgId(Persist(stored, "")) == PageOrgId(stored)
  {
  }
}
