/**
 * The migrations of the basic example (examples/basic/requestmigrations.go):
 * a user's `full_name` split into `first_name` and `last_name`, and a profile
 * that used to be its bare uid string. Each works on a decoded JSON value;
 * anything that is not the expected shape passes through unchanged, and none
 * of them ever fails.
 */
module BasicExample {
  import opened Wrappers
  import opened Strings
  import opened Json

  // ------------------------------------------------------------------
  // UserMigration
  // ------------------------------------------------------------------

  /**
   * The new user shape: a string `full_name` is removed, its first
   * space-separated part becomes `first_name` and its second part, if there
   * is one, `last_name`; further parts are lost. Every other key is kept.
   */
  function UserForward(data: Json): (r: Json)
    ensures !data.Obj? || !HasString(data.fields, "full_name") ==> r == data
    ensures data.Obj? && HasString(data.fields, "full_name") ==>
              var parts := Split(data.fields["full_name"].s, ' ');
              && r.Obj? && "full_name" !in r.fields
              && r.fields.Keys == data.fields.Keys - {"full_name"} + {"first_name"} + (if |parts| > 1 then {"last_name"} else {})
              && r.fields["first_name"] == Str(parts[0])
              && (|parts| > 1 ==> r.fields["last_name"] == Str(parts[1]))
              && (forall k :: k in data.fields && k !in {"full_name", "first_name", "last_name"} ==> r.fields[k] == data.fields[k])
              && (|parts| == 1 && "last_name" in data.fields ==> r.fields["last_name"] == data.fields["last_name"])
  {
    if data.Obj? && HasString(data.fields, "full_name") then
      var d := data.fields;
      var parts := Split(d["full_name"].s, ' ');
      var named := d["first_name" := Str(parts[0])];
      var named := if |parts| > 1 then named["last_name" := Str(parts[1])] else named;
      Obj(named - {"full_name"})
    else
      data
  }

  /** `UserMigration.MigrateForward`: updates the decoded map in place; never an error. */
  method UserMigrateForward(data: Json) returns (r: Result<Json, string>)
    ensures r == Success(UserForward(data))
  {
    if !data.Obj? {
      return Success(data);
    }
    var d := data.fields;
    if "full_name" in d && d["full_name"].Str? {
      var parts := Split(d["full_name"].s, ' ');
      if |parts| > 0 {
        d := d["first_name" := Str(parts[0])];
      }
      if |parts| > 1 {
        d := d["last_name" := Str(parts[1])];
      }
      d := d - {"full_name"};
    }
    return Success(Obj(d));
  }

  /** The name shown to older clients: first and last name joined by a space, white space trimmed. */
  function FullName(d: map<string, Json>): (name: string)
    ensures IsStringEmpty(StringOr(d, "first_name")) && IsStringEmpty(StringOr(d, "last_name")) ==> name == []
  {
    var a, b := StringOr(d, "first_name"), StringOr(d, "last_name");
    var joined := a + " " + b;
    assert AllSpace(a) && AllSpace(b) ==> AllSpace(joined) by {
      if AllSpace(a) && AllSpace(b) {
        forall i | 0 <= i < |joined| ensures IsSpace(joined[i]) {
          if i < |a| {
            assert joined[i] == a[i];
          } else if i > |a| {
            assert joined[i] == b[i - |a| - 1];
          }
        }
      }
    }
    TrimSpace(joined)
  }

  /**
   * The old user shape: `full_name` is set from the two name keys (a missing
   * or non-string name counts as ""); the name keys themselves are kept.
   */
  function UserBackward(data: Json): (r: Json)
    ensures !data.Obj? ==> r == data
    ensures data.Obj? ==> && r.Obj? && r.fields.Keys == data.fields.Keys + {"full_name"}
                          && r.fields["full_name"] == Str(FullName(data.fields))
                          && forall k :: k in data.fields && k != "full_name" ==> r.fields[k] == data.fields[k]
  {
    if data.Obj? then Obj(data.fields["full_name" := Str(FullName(data.fields))]) else data
  }

  /** `UserMigration.MigrateBackward`: updates the decoded map in place; never an error. */
  method UserMigrateBackward(data: Json) returns (r: Result<Json, string>)
    ensures r == Success(UserBackward(data))
  {
    if !data.Obj? {
      return Success(data);
    }
    var d := data.fields;
    var firstName := if "first_name" in d && d["first_name"].Str? then d["first_name"].s else "";
    var lastName := if "last_name" in d && d["last_name"].Str? then d["last_name"].s else "";
    d := d["full_name" := Str(TrimSpace(firstName + " " + lastName))];
    return Success(Obj(d));
  }

  /** A name the round trip keeps: non-empty, no space inside, no white space at either end. */
  predicate PlainName(s: string) {
    s != [] && ' ' !in s && !IsSpace(s[0]) && !IsSpace(s[|s| - 1])
  }

  /**
   * A user in the new shape with plain first and last names and no
   * `full_name` survives the trip to the old shape and back.
   */
  lemma UserBackwardThenForward(d: map<string, Json>)
    requires HasString(d, "first_name") && PlainName(d["first_name"].s)
    requires HasString(d, "last_name") && PlainName(d["last_name"].s)
    requires "full_name" !in d
    ensures UserForward(UserBackward(Obj(d))) == Obj(d)
  {
    var f, l := d["first_name"].s, d["last_name"].s;
    PlainNamesJoin(f, l);
    var e := d["full_name" := Str(f + " " + l)];
    assert UserBackward(Obj(d)) == Obj(e);
    assert UserForward(Obj(e)) == Obj(e["first_name" := Str(f)]["last_name" := Str(l)] - {"full_name"});
    RestoreNames(d, Str(f + " " + l));
  }

  /** Setting `full_name`, rewriting both name keys with their own values and removing `full_name` again gives back the map. */
  lemma RestoreNames(d: map<string, Json>, full: Json)
    requires "first_name" in d && "last_name" in d && "full_name" !in d
    ensures d["full_name" := full]["first_name" := d["first_name"]]["last_name" := d["last_name"]] - {"full_name"} == d
  {
  }

  /** Two plain names joined by a space are kept by the trim and split back apart. */
  lemma PlainNamesJoin(f: string, l: string)
    requires PlainName(f) && PlainName(l)
    ensures TrimSpace(f + " " + l) == f + " " + l
    ensures Split(f + " " + l, ' ') == [f, l]
  {
    var joined := f + " " + l;
    assert joined == Join([f, l], ' ');
    assert joined[0] == f[0] && joined[|joined| - 1] == l[|l| - 1];
    TrimSpaceKeepsTrimmed(joined);
    SplitJoin([f, l], ' ');
  }

  // ------------------------------------------------------------------
  // ProfileMigration
  // ------------------------------------------------------------------

  /** The new profile shape: a bare uid string becomes `{"uid": uid}`; anything else is kept. */
  function ProfileForward(data: Json): (r: Json)
    ensures data.Str? ==> r.Obj? && r.fields.Keys == {"uid"} && r.fields["uid"] == data
    ensures !data.Str? ==> r == data
  {
    if data.Str? then Obj(map["uid" := data]) else data
  }

  /** `ProfileMigration.MigrateForward`: never an error. */
  method ProfileMigrateForward(data: Json) returns (r: Result<Json, string>)
    ensures r == Success(ProfileForward(data))
  {
    if data.Str? {
      return Success(Obj(map["uid" := Str(data.s)]));
    }
    return Success(data);
  }

  /** The old profile shape: a map collapses to its `uid` value (null when there is none). */
  function ProfileBackward(data: Json): (r: Json)
    ensures data.Obj? && "uid" in data.fields ==> r == data.fields["uid"]
    ensures data.Obj? && "uid" !in data.fields ==> r == Null
    ensures !data.Obj? ==> r == data
  {
    if data.Obj? then (if "uid" in data.fields then data.fields["uid"] else Null) else data
  }

  /** `ProfileMigration.MigrateBackward`: never an error. */
  method ProfileMigrateBackward(data: Json) returns (r: Result<Json, string>)
    ensures r == Success(ProfileBackward(data))
  {
    if !data.Obj? {
      return Success(data);
    }
    var d := data.fields;
    if "uid" in d {
      return Success(d["uid"]);
    }
    return Success(Null);
  }

  /** An old client's uid string comes back unchanged from the new shape. */
  lemma ProfileForwardThenBackward(s: string)
    ensures ProfileBackward(ProfileForward(Str(s))) == Str(s)
  {
  }

  /** A new profile holding only its uid string survives the trip to the old shape and back. */
  lemma ProfileBackwardThenForward(uid: string)
    ensures ProfileForward(ProfileBackward(Obj(map["uid" := Str(uid)]))) == Obj(map["uid" := Str(uid)])
  {
  }
}
