/**
 * The migrations of the advanced example (examples/advanced/main.go): a user's
 * `email` renamed to `username`, and a workspace whose `projects` list became
 * a map keyed by project id. Each migration asserts that its input is a
 * decoded JSON object (the Go code panics otherwise, modelled here as a
 * precondition), never returns an error, and leaves an input whose key does
 * not have the expected shape unchanged.
 */
module AdvancedExample {
  import opened Wrappers
  import opened Json
  import opened MapIteration

  // ------------------------------------------------------------------
  // UserMigrationV20230601
  // ------------------------------------------------------------------

  /** A string stored under `from` moves to `to` and `from` disappears; without one the map is unchanged. */
  function MoveString(d: map<string, Json>, from: string, to: string): (r: map<string, Json>)
    requires from != to
    ensures HasString(d, from) ==>
              && r.Keys == d.Keys - {from} + {to}
              && r[to] == d[from]
              && forall k :: k in d && k != from && k != to ==> r[k] == d[k]
    ensures !HasString(d, from) ==> r == d
  {
    if HasString(d, from) then d[to := d[from]] - {from} else d
  }

  /** The new user shape: a string `email` moves to `username` and `email` disappears. */
  function UserForward(d: map<string, Json>): (r: map<string, Json>)
    ensures HasString(d, "email") ==>
              && r.Keys == d.Keys - {"email"} + {"username"}
              && r["username"] == d["email"]
              && forall k :: k in d && k != "email" && k != "username" ==> r[k] == d[k]
    ensures !HasString(d, "email") ==> r == d
  {
    MoveString(d, "email", "username")
  }

  /** The old user shape: a string `username` moves back to `email` and `username` disappears. */
  function UserBackward(d: map<string, Json>): (r: map<string, Json>)
    ensures HasString(d, "username") ==>
              && r.Keys == d.Keys - {"username"} + {"email"}
              && r["email"] == d["username"]
              && forall k :: k in d && k != "email" && k != "username" ==> r[k] == d[k]
    ensures !HasString(d, "username") ==> r == d
  {
    MoveString(d, "username", "email")
  }

  /** `UserMigrationV20230601.MigrateForward`: updates the asserted map in place; never an error. */
  method UserMigrateForward(data: Json) returns (r: Result<Json, string>)
    requires data.Obj?
    ensures r == Success(Obj(UserForward(data.fields)))
  {
    var d := data.fields;
    if "email" in d && d["email"].Str? {
      var email := d["email"].s;
      d := d["username" := Str(email)];
      d := d - {"email"};
    }
    return Success(Obj(d));
  }

  /** `UserMigrationV20230601.MigrateBackward`: updates the asserted map in place; never an error. */
  method UserMigrateBackward(data: Json) returns (r: Result<Json, string>)
    requires data.Obj?
    ensures r == Success(Obj(UserBackward(data.fields)))
  {
    var d := data.fields;
    if "username" in d && d["username"].Str? {
      var username := d["username"].s;
      d := d["email" := Str(username)];
      d := d - {"username"};
    }
    return Success(Obj(d));
  }

  /** An old-shape user (no `username` key) survives the trip to the new shape and back. */
  lemma UserForwardThenBackward(d: map<string, Json>)
    requires "username" !in d
    ensures UserBackward(UserForward(d)) == d
  {
    if HasString(d, "email") {
      var there := UserForward(d);
      assert UserBackward(there).Keys == d.Keys;
    }
  }

  /** A new-shape user (no `email` key) survives the trip to the old shape and back. */
  lemma UserBackwardThenForward(d: map<string, Json>)
    requires "email" !in d
    ensures UserForward(UserBackward(d)) == d
  {
    if HasString(d, "username") {
      var there := UserBackward(d);
      assert UserForward(there).Keys == d.Keys;
    }
  }

  // ------------------------------------------------------------------
  // WorkspaceMigrationV20240101
  // ------------------------------------------------------------------

  /** `pm["id"].(string)` on a project: its id when the project is a map holding a string `id`. */
  function Id(p: Json): Option<string> {
    if p.Obj? && HasString(p.fields, "id") then Some(p.fields["id"].s) else None
  }

  /** No project after position `i` carries the same id as the one at `i`. */
  predicate LastWithId(ps: seq<Json>, i: int)
    requires 0 <= i < |ps|
  {
    forall j :: i < j < |ps| ==> Id(ps[j]) != Id(ps[i])
  }

  /**
   * The project map built from a project list: each project with a string id
   * filed under that id, projects without one dropped, and of several
   * projects with the same id the last one kept.
   */
  function ProjectsById(ps: seq<Json>): (m: map<string, Json>)
    ensures forall id :: id in m ==> Id(m[id]) == Some(id)
  {
    if ps == [] then map[]
    else
      var m := ProjectsById(ps[..|ps| - 1]);
      var p := ps[|ps| - 1];
      if Id(p).Some? then m[Id(p).value := p] else m
  }

  /** Every project with a string id has an entry under that id. */
  lemma {:induction false} ProjectsByIdHasId(ps: seq<Json>, i: int)
    requires 0 <= i < |ps| && Id(ps[i]).Some?
    ensures Id(ps[i]).value in ProjectsById(ps)
  {
    if i < |ps| - 1 {
      var init := ps[..|ps| - 1];
      assert init[i] == ps[i];
      ProjectsByIdHasId(init, i);
    }
  }

  /** Every entry of the project map is one of the listed projects. */
  lemma {:induction false} ProjectsByIdFrom(ps: seq<Json>, id: string)
    requires id in ProjectsById(ps)
    ensures exists i :: 0 <= i < |ps| && ps[i] == ProjectsById(ps)[id]
  {
    var init, p := ps[..|ps| - 1], ps[|ps| - 1];
    if Id(p) != Some(id) {
      ProjectsByIdFrom(init, id);
      var i :| 0 <= i < |init| && init[i] == ProjectsById(init)[id];
      assert ps[i] == init[i];
    } else {
      assert ps[|ps| - 1] == ProjectsById(ps)[id];
    }
  }

  /** The entry under a project's id is that project when no later project has the same id. */
  lemma {:induction false} ProjectsByIdLast(ps: seq<Json>, i: int)
    requires 0 <= i < |ps| && Id(ps[i]).Some? && LastWithId(ps, i)
    ensures Id(ps[i]).value in ProjectsById(ps)
    ensures ProjectsById(ps)[Id(ps[i]).value] == ps[i]
  {
    ProjectsByIdHasId(ps, i);
    if i < |ps| - 1 {
      var init := ps[..|ps| - 1];
      assert init[i] == ps[i];
      assert Id(ps[|ps| - 1]) != Id(ps[i]);
      assert LastWithId(init, i) by {
        forall j | i < j < |init| ensures Id(init[j]) != Id(init[i]) {
          assert init[j] == ps[j];
        }
      }
      ProjectsByIdLast(init, i);
    }
  }

  /**
   * The keys of the project map are exactly the string ids in the list, and
   * each project that is the last one with its id is the entry under it.
   */
  lemma ProjectsByIdEntries(ps: seq<Json>)
    ensures forall id :: id in ProjectsById(ps) <==> exists i :: 0 <= i < |ps| && Id(ps[i]) == Some(id)
    ensures forall i :: 0 <= i < |ps| && Id(ps[i]).Some? && LastWithId(ps, i) ==> ProjectsById(ps)[Id(ps[i]).value] == ps[i]
  {
    var m := ProjectsById(ps);
    forall id ensures id in m <==> exists i :: 0 <= i < |ps| && Id(ps[i]) == Some(id) {
      if id in m {
        ProjectsByIdFrom(ps, id);
        var i :| 0 <= i < |ps| && ps[i] == m[id];
        assert Id(ps[i]) == Some(id);
      } else if exists i :: 0 <= i < |ps| && Id(ps[i]) == Some(id) {
        var i :| 0 <= i < |ps| && Id(ps[i]) == Some(id);
        ProjectsByIdHasId(ps, i);
      }
    }
    forall i | 0 <= i < |ps| && Id(ps[i]).Some? && LastWithId(ps, i) ensures m[Id(ps[i]).value] == ps[i] {
      ProjectsByIdLast(ps, i);
    }
  }

  /** The project list holds maps only (`p.(map[string]any)` panics on anything else). */
  predicate ProjectsAreMaps(d: map<string, Json>) {
    "projects" in d && d["projects"].List? ==>
      forall i :: 0 <= i < |d["projects"].items| ==> d["projects"].items[i].Obj?
  }

  /** The new workspace shape: a `projects` list becomes the map of its projects by id; everything else is kept. */
  function WorkspaceForward(d: map<string, Json>): (r: map<string, Json>)
    ensures r.Keys == d.Keys
    ensures forall k :: k in d && k != "projects" ==> r[k] == d[k]
    ensures "projects" in d && d["projects"].List? ==> r["projects"] == Obj(ProjectsById(d["projects"].items))
    ensures !("projects" in d && d["projects"].List?) ==> r == d
  {
    if "projects" in d && d["projects"].List? then d["projects" := Obj(ProjectsById(d["projects"].items))] else d
  }

  /** `WorkspaceMigrationV20240101.MigrateForward`: builds the project map in a loop over the list. */
  method WorkspaceMigrateForward(data: Json) returns (r: Result<Json, string>)
    requires data.Obj? && ProjectsAreMaps(data.fields)
    ensures r == Success(Obj(WorkspaceForward(data.fields)))
  {
    var d := data.fields;
    if "projects" in d && d["projects"].List? {
      var projects := d["projects"].items;
      var projectMap: map<string, Json> := map[];
      for i := 0 to |projects|
        invariant projectMap == ProjectsById(projects[..i])
      {
        var pm := projects[i].fields;
        if "id" in pm && pm["id"].Str? {
          projectMap := projectMap[pm["id"].s := projects[i]];
        }
        assert projects[..i + 1][..i] == projects[..i];
      }
      assert projects[..|projects|] == projects;
      d := d["projects" := Obj(projectMap)];
    }
    return Success(Obj(d));
  }

  /**
   * The old workspace shape: a `projects` map becomes the list of its
   * projects, in the order some enumeration of its keys visits them;
   * anything else is kept.
   */
  ghost predicate WorkspaceBackward(d: map<string, Json>, r: map<string, Json>): (ok: bool)
    ensures ok ==> r.Keys == d.Keys && forall k :: k in d && k != "projects" ==> r[k] == d[k]
    ensures ok && "projects" in d && d["projects"].Obj? ==> r["projects"].List?
  {
    if "projects" in d && d["projects"].Obj? then
      exists order :: Enumerates(order, d["projects"].fields.Keys)
                   && r == d["projects" := List(ValuesAt(d["projects"].fields, order))]
    else
      r == d
  }

  /** `WorkspaceMigrationV20240101.MigrateBackward`: appends the map's projects to a list in map iteration order. */
  method WorkspaceMigrateBackward(data: Json) returns (r: Result<Json, string>)
    requires data.Obj?
    ensures r.Success? && r.value.Obj? && WorkspaceBackward(data.fields, r.value.fields)
    ensures "projects" in data.fields && data.fields["projects"].Obj? ==>
              r.value.fields["projects"].List? && |r.value.fields["projects"].items| == |data.fields["projects"].fields|
  {
    var d := data.fields;
    if "projects" in d && d["projects"].Obj? {
      var projectMap := d["projects"].fields;
      var projects: seq<Json> := [];
      var rest := projectMap.Keys;
      ghost var order: seq<string> := [];
      while rest != {}
        invariant rest <= projectMap.Keys
        invariant Enumerates(order, projectMap.Keys - rest)
        invariant forall i :: 0 <= i < |order| ==> order[i] in projectMap
        invariant projects == ValuesAt(projectMap, order)
        decreases rest
      {
        var k :| k in rest;
        EnumeratesStep(order, projectMap.Keys - rest, k);
        assert projectMap.Keys - (rest - {k}) == projectMap.Keys - rest + {k};
        assert (order + [k])[..|order|] == order;
        projects := projects + [projectMap[k]];
        order := order + [k];
        rest := rest - {k};
      }
      EnumerationLength(order, projectMap.Keys);
      d := d["projects" := List(projects)];
    }
    return Success(Obj(d));
  }

  /** Every project has a string id and no two share one. */
  predicate UniqueIds(ps: seq<Json>) {
    && (forall i :: 0 <= i < |ps| ==> Id(ps[i]).Some?)
    && (forall i, j :: 0 <= i < j < |ps| ==> Id(ps[i]) != Id(ps[j]))
  }

  /** With unique ids, every project is the last one with its id and is found in the map under it. */
  lemma UniqueIdsFiled(ps: seq<Json>, j: int)
    requires UniqueIds(ps) && 0 <= j < |ps|
    ensures Id(ps[j]).value in ProjectsById(ps) && ProjectsById(ps)[Id(ps[j]).value] == ps[j]
  {
    ProjectsByIdHasId(ps, j);
    ProjectsByIdLast(ps, j);
  }

  /** Listing a map whose entries carry their own keys as ids, along distinct keys, repeats no project. */
  lemma ListedDistinct(m: map<string, Json>, order: seq<string>)
    requires forall k :: k in m ==> Id(m[k]) == Some(k)
    requires Enumerates(order, m.Keys)
    ensures forall i :: 0 <= i < |order| ==> order[i] in m
    ensures Distinct(ValuesAt(m, order))
  {
    var vs := ValuesAt(m, order);
    forall i, j | 0 <= i < j < |vs| ensures vs[i] != vs[j] {
      assert Id(vs[i]) == Some(order[i]) && Id(vs[j]) == Some(order[j]);
    }
  }

  /** Each project listed from the map of a list is a project of the list. */
  lemma ListedIsProject(ps: seq<Json>, order: seq<string>, i: int)
    requires Enumerates(order, ProjectsById(ps).Keys)
    requires 0 <= i < |order|
    ensures forall i :: 0 <= i < |order| ==> order[i] in ProjectsById(ps)
    ensures ValuesAt(ProjectsById(ps), order)[i] in ps
  {
    assert forall i :: 0 <= i < |order| ==> order[i] in ProjectsById(ps);
    ProjectsByIdFrom(ps, order[i]);
  }

  /** With unique ids, each project of the list is listed from its map. */
  lemma ProjectIsListed(ps: seq<Json>, order: seq<string>, j: int)
    requires UniqueIds(ps)
    requires Enumerates(order, ProjectsById(ps).Keys)
    requires 0 <= j < |ps|
    ensures forall i :: 0 <= i < |order| ==> order[i] in ProjectsById(ps)
    ensures ps[j] in ValuesAt(ProjectsById(ps), order)
  {
    assert forall i :: 0 <= i < |order| ==> order[i] in ProjectsById(ps);
    UniqueIdsFiled(ps, j);
    var i :| 0 <= i < |order| && order[i] == Id(ps[j]).value;
    assert ValuesAt(ProjectsById(ps), order)[i] == ps[j];
  }

  /** The projects listed from the map of a list with unique ids are exactly the projects of the list. */
  lemma ListedAreProjects(ps: seq<Json>, order: seq<string>)
    requires UniqueIds(ps)
    requires Enumerates(order, ProjectsById(ps).Keys)
    ensures forall i :: 0 <= i < |order| ==> order[i] in ProjectsById(ps)
    ensures forall x :: x in ValuesAt(ProjectsById(ps), order) <==> x in ps
  {
    assert forall i :: 0 <= i < |order| ==> order[i] in ProjectsById(ps);
    var vs := ValuesAt(ProjectsById(ps), order);
    forall x | x in vs ensures x in ps {
      var i :| 0 <= i < |vs| && vs[i] == x;
      ListedIsProject(ps, order, i);
    }
    forall x | x in ps ensures x in vs {
      var j :| 0 <= j < |ps| && ps[j] == x;
      ProjectIsListed(ps, order, j);
    }
  }

  /** Projects with unique ids are distinct projects. */
  lemma UniqueIdsDistinct(ps: seq<Json>)
    requires UniqueIds(ps)
    ensures Distinct(ps)
  {
    forall i, j | 0 <= i < j < |ps| ensures ps[i] != ps[j] {
      assert Id(ps[i]) != Id(ps[j]);
    }
  }

  /**
   * With unique ids, listing the project map in any key order gives back the
   * original projects, each exactly once, possibly reordered.
   */
  lemma ProjectsPermutation(ps: seq<Json>, order: seq<string>)
    requires UniqueIds(ps)
    requires Enumerates(order, ProjectsById(ps).Keys)
    ensures forall i :: 0 <= i < |order| ==> order[i] in ProjectsById(ps)
    ensures multiset(ValuesAt(ProjectsById(ps), order)) == multiset(ps)
  {
    ListedAreProjects(ps, order);
    ListedDistinct(ProjectsById(ps), order);
    UniqueIdsDistinct(ps);
    SameElementsMultiset(ValuesAt(ProjectsById(ps), order), ps);
  }

  /** Rebuilding from the listed values of such a map finds every id of the map, with its own project. */
  lemma RestoredEntry(m: map<string, Json>, order: seq<string>, id: string)
    requires forall k :: k in m ==> Id(m[k]) == Some(k)
    requires Enumerates(order, m.Keys)
    requires id in m
    ensures forall i :: 0 <= i < |order| ==> order[i] in m
    ensures id in ProjectsById(ValuesAt(m, order)) && ProjectsById(ValuesAt(m, order))[id] == m[id]
  {
    ListedDistinct(m, order);
    var vs := ValuesAt(m, order);
    var i :| 0 <= i < |order| && order[i] == id;
    assert LastWithId(vs, i) by {
      forall j | i < j < |vs| ensures Id(vs[j]) != Id(vs[i]) {
        assert Id(vs[j]) == Some(order[j]);
      }
    }
    ProjectsByIdLast(vs, i);
  }

  /** Rebuilding from the listed values of such a map finds no id the map lacks. */
  lemma RestoredKey(m: map<string, Json>, order: seq<string>, id: string)
    requires forall k :: k in m ==> Id(m[k]) == Some(k)
    requires Enumerates(order, m.Keys)
    requires forall i :: 0 <= i < |order| ==> order[i] in m
    requires id in ProjectsById(ValuesAt(m, order))
    ensures id in m
  {
    var vs := ValuesAt(m, order);
    ProjectsByIdFrom(vs, id);
    var i :| 0 <= i < |vs| && vs[i] == ProjectsById(vs)[id];
    assert Id(vs[i]) == Some(order[i]);
  }

  /** A project map that files each project under its own id is rebuilt exactly from its values, in any key order. */
  lemma ProjectsRestored(m: map<string, Json>, order: seq<string>)
    requires forall k :: k in m ==> Id(m[k]) == Some(k)
    requires Enumerates(order, m.Keys)
    ensures forall i :: 0 <= i < |order| ==> order[i] in m
    ensures ProjectsById(ValuesAt(m, order)) == m
  {
    assert forall i :: 0 <= i < |order| ==> order[i] in m;
    var back := ProjectsById(ValuesAt(m, order));
    forall id | id in back ensures id in m {
      RestoredKey(m, order, id);
    }
    forall id | id in m ensures id in back && back[id] == m[id] {
      RestoredEntry(m, order, id);
    }
  }

  /**
   * A workspace in the old shape whose projects have unique ids comes back
   * from the new shape with the same projects, possibly reordered, and every
   * other key unchanged.
   */
  lemma WorkspaceForwardThenBackward(d: map<string, Json>, r: map<string, Json>)
    requires "projects" in d && d["projects"].List? && UniqueIds(d["projects"].items)
    requires WorkspaceBackward(WorkspaceForward(d), r)
    ensures r.Keys == d.Keys
    ensures forall k :: k in d && k != "projects" ==> r[k] == d[k]
    ensures r["projects"].List? && multiset(r["projects"].items) == multiset(d["projects"].items)
  {
    var ps := d["projects"].items;
    var there := WorkspaceForward(d);
    var order :| Enumerates(order, ProjectsById(ps).Keys)
              && r == there["projects" := List(ValuesAt(ProjectsById(ps), order))];
    ProjectsPermutation(ps, order);
  }

  /**
   * A workspace in the new shape whose projects are filed under their own ids
   * comes back unchanged from the old shape, whatever order the map was
   * listed in.
   */
  lemma WorkspaceBackwardThenForward(d: map<string, Json>, r: map<string, Json>)
    requires "projects" in d && d["projects"].Obj?
    requires forall k :: k in d["projects"].fields ==> Id(d["projects"].fields[k]) == Some(k)
    requires WorkspaceBackward(d, r)
    ensures WorkspaceForward(r) == d
  {
    var m := d["projects"].fields;
    var order :| Enumerates(order, m.Keys) && r == d["projects" := List(ValuesAt(m, order))];
    ListingRestored(d, m, order);
  }

  /** The step of `WorkspaceBackwardThenForward` for one fixed listing order. */
  lemma ListingRestored(d: map<string, Json>, m: map<string, Json>, order: seq<string>)
    requires "projects" in d && d["projects"] == Obj(m)
    requires forall k :: k in m ==> Id(m[k]) == Some(k)
    requires Enumerates(order, m.Keys)
    ensures forall i :: 0 <= i < |order| ==> order[i] in m
    ensures WorkspaceForward(d["projects" := List(ValuesAt(m, order))]) == d
  {
    ProjectsRestored(m, order);
    Reinstated(d, "projects", List(ValuesAt(m, order)));
  }

  /** Overwriting a key and then restoring its old value gives back the map. */
  lemma Reinstated<K, V>(d: map<K, V>, k: K, v: V)
    requires k in d
    ensures d[k := v][k := d[k]] == d
  {
  }
}
