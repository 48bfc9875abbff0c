/**
 * The categories table, scoped by user: listing (active only, or all), create with a
 * duplicate check, rename, and soft delete.
 */
module CategoryRoutes {
  import opened Results
  import opened Payload
  import opened Text
  import Sorting

  datatype Category = Category(id: nat, userId: nat, name: string, isActive: bool, createdAt: int)

  datatype CategoryError =
    | InvalidBody     // 400: the body failed the schema
    | NotFound        // 404: no category with that id belongs to the user
    | Duplicate       // 409: the user already has a category with that name

  /** The schema: `name` is a string of at least one character, counted before trimming. */
  function NameOf(body: Body): (r: Result<string, CategoryError>)
    ensures r.Success? ==> |r.value| >= 1 && StringField(body, "name") == Some(r.value)
    ensures r.Success? <==> StringField(body, "name").Some? && |StringField(body, "name").value| >= 1
    ensures r.Failure? ==> r.error == InvalidBody
  {
    match StringField(body, "name")
    case Some(name) => if |name| >= 1 then Success(name) else Failure(InvalidBody)
    case None => Failure(InvalidBody)
  }

  /** A white-space-only name passes the schema and is stored as the empty string. */
  lemma BlankNameStoredEmpty(name: string)
    requires |name| >= 1 && AllSpace(name)
    ensures NameOf(Object(map["name" := JStr(name)])) == Success(name)
    ensures Trim(name) == ""
  {
  }

  predicate Owns(c: Category, user: nat, id: nat)
  {
    c.id == id && c.userId == user
  }

  predicate HasOwned(rows: seq<Category>, user: nat, id: nat)
  {
    exists i :: 0 <= i < |rows| && Owns(rows[i], user, id)
  }

  /** Some category of the user other than `id` (when given) already has this name. */
  predicate NameTaken(rows: seq<Category>, user: nat, name: string, except: Option<nat>)
  {
    exists i :: 0 <= i < |rows| && rows[i].userId == user && rows[i].name == name
                && (except.None? || rows[i].id != except.value)
  }

  /** `UPDATE categories SET name = $1 WHERE id = $2 AND user_id = $3`. */
  function Renamed(rows: seq<Category>, user: nat, id: nat, name: string): (r: seq<Category>)
    ensures |r| == |rows|
    ensures forall i :: 0 <= i < |rows| && !Owns(rows[i], user, id) ==> r[i] == rows[i]
    ensures forall i :: 0 <= i < |rows| && Owns(rows[i], user, id) ==>
      r[i].name == name && r[i].(name := rows[i].name) == rows[i]
  {
    seq(|rows|, i requires 0 <= i < |rows| => if Owns(rows[i], user, id) then rows[i].(name := name) else rows[i])
  }

  /** `UPDATE categories SET is_active = false WHERE id = $1 AND user_id = $2`. */
  function Deactivated(rows: seq<Category>, user: nat, id: nat): (r: seq<Category>)
    ensures |r| == |rows|
    ensures forall i :: 0 <= i < |rows| && !Owns(rows[i], user, id) ==> r[i] == rows[i]
    ensures forall i :: 0 <= i < |rows| && Owns(rows[i], user, id) ==>
      !r[i].isActive && r[i].(isActive := rows[i].isActive) == rows[i]
  {
    seq(|rows|, i requires 0 <= i < |rows| => if Owns(rows[i], user, id) then rows[i].(isActive := false) else rows[i])
  }

  ghost predicate UniqueIds(rows: seq<Category>)
  {
    forall i, j :: 0 <= i < j < |rows| ==> rows[i].id != rows[j].id
  }

  /** The store's uniqueness of (user, name). */
  ghost predicate UniqueNames(rows: seq<Category>)
  {
    forall i, j :: 0 <= i < j < |rows| && rows[i].userId == rows[j].userId ==> rows[i].name != rows[j].name
  }

  /** Soft delete is idempotent: deleting again changes nothing. */
  lemma DeactivateIdempotent(rows: seq<Category>, user: nat, id: nat)
    ensures Deactivated(Deactivated(rows, user, id), user, id) == Deactivated(rows, user, id)
  {
  }

  /** Soft delete keeps every row and every name, so uniqueness is untouched. */
  lemma DeactivateKeepsInvariant(rows: seq<Category>, user: nat, id: nat)
    requires UniqueIds(rows) && UniqueNames(rows)
    ensures UniqueIds(Deactivated(rows, user, id)) && UniqueNames(Deactivated(rows, user, id))
  {
  }

  /** A rename that is not refused as a duplicate keeps (user, name) unique. */
  lemma {:induction false} RenameKeepsInvariant(rows: seq<Category>, user: nat, id: nat, name: string)
    requires UniqueIds(rows) && UniqueNames(rows)
    requires !NameTaken(rows, user, name, Some(id))
    ensures UniqueIds(Renamed(rows, user, id, name)) && UniqueNames(Renamed(rows, user, id, name))
  {
    var r := Renamed(rows, user, id, name);
    forall i, j | 0 <= i < j < |r| && r[i].userId == r[j].userId
      ensures r[i].name != r[j].name
    {
      if Owns(rows[i], user, id) && !Owns(rows[j], user, id) {
        assert rows[j].userId == user && rows[j].id != id;
      } else if Owns(rows[j], user, id) && !Owns(rows[i], user, id) {
        assert rows[i].userId == user && rows[i].id != id;
      }
    }
  }

  /** `WHERE user_id = $1` and, unless `all` is exactly "1", `AND is_active = true`. */
  function Visible(rows: seq<Category>, user: nat, all: Option<string>): (r: seq<Category>)
    ensures forall c :: c in r <==> c in rows && c.userId == user && (all == Some("1") || c.isActive)
    ensures forall c :: multiset(r)[c] == if c.userId == user && (all == Some("1") || c.isActive) then multiset(rows)[c] else 0
  {
    if rows == [] then []
    else
      var init := Visible(rows[..|rows| - 1], user, all);
      var c := rows[|rows| - 1];
      assert rows == rows[..|rows| - 1] + [c];
      if c.userId == user && (all == Some("1") || c.isActive) then init + [c] else init
  }

  /** `ORDER BY name ASC`, by code points. */
  predicate NameOrder(a: Category, b: Category)
  {
    LexLe(a.name, b.name)
  }

  lemma NameOrderIsTotalPreorder()
    ensures Sorting.IsTotalPreorder(NameOrder)
  {
    forall a: Category, b: Category
      ensures NameOrder(a, b) || NameOrder(b, a)
    {
      LexLeTotal(a.name, b.name);
    }
    forall a: Category, b: Category, c: Category | NameOrder(a, b) && NameOrder(b, c)
      ensures NameOrder(a, c)
    {
      LexLeTransitive(a.name, b.name, c.name);
    }
  }

  /** GET /categories: exactly the visible categories, sorted by name. */
  function Listing(rows: seq<Category>, user: nat, all: Option<string>): (r: seq<Category>)
    ensures multiset(r) == multiset(Visible(rows, user, all))
    ensures forall c :: c in r <==> c in rows && c.userId == user && (all == Some("1") || c.isActive)
    ensures Sorting.SortedBy(r, NameOrder)
  {
    NameOrderIsTotalPreorder();
    Sorting.SortBySorted(Visible(rows, user, all), NameOrder);
    var r := Sorting.SortBy(Visible(rows, user, all), NameOrder);
    assert forall c :: c in r <==> c in multiset(Visible(rows, user, all));
    r
  }

  /** After a soft delete the category is listed with `all=1` (inactive) and no longer without it. */
  lemma SoftDeleteVisibility(rows: seq<Category>, user: nat, id: nat, i: nat)
    requires i < |rows| && Owns(rows[i], user, id)
    ensures rows[i].(isActive := false) in Listing(Deactivated(rows, user, id), user, Some("1"))
    ensures forall c :: c in Listing(Deactivated(rows, user, id), user, None) ==> c.id != id
  {
    var after := Deactivated(rows, user, id);
    assert after[i] == rows[i].(isActive := false);
    forall c | c in Listing(after, user, None)
      ensures c.id != id
    {
      var j :| 0 <= j < |after| && after[j] == c;
    }
  }

  /** The categories table: the rows and the next id the store hands out. */
  class CategoryTable {
    var rows: seq<Category>
    var nextId: nat

    ghost predicate Valid()
      reads this
    {
      && UniqueIds(rows) && UniqueNames(rows)
      && (forall i :: 0 <= i < |rows| ==> rows[i].id < nextId)
    }

    constructor ()
      ensures Valid() && rows == [] && nextId == 1
    {
      rows := [];
      nextId := 1;
    }

    /** GET /categories. */
    function List(user: nat, all: Option<string>): (r: seq<Category>)
      reads this
      ensures forall c :: c in r <==> c in rows && c.userId == user && (all == Some("1") || c.isActive)
      ensures forall c :: multiset(r)[c] == if c.userId == user && (all == Some("1") || c.isActive) then multiset(rows)[c] else 0
      ensures Sorting.SortedBy(r, NameOrder)
    {
      Listing(rows, user, all)
    }

    /** POST /categories. */
    method Create(user: nat, body: Body, createdAt: int) returns (r: Result<Category, CategoryError>)
      requires Valid()
      modifies this
      ensures Valid()
      ensures NameOf(body).Failure? ==> r == Failure(InvalidBody) && rows == old(rows) && nextId == old(nextId)
      ensures NameOf(body).Success? && NameTaken(old(rows), user, Trim(NameOf(body).value), None) ==>
        r == Failure(Duplicate) && rows == old(rows) && nextId == old(nextId)
      ensures NameOf(body).Success? && !NameTaken(old(rows), user, Trim(NameOf(body).value), None) ==>
        && r == Success(Category(old(nextId), user, Trim(NameOf(body).value), true, createdAt))
        && rows == old(rows) + [r.value] && nextId == old(nextId) + 1
    {
      match NameOf(body)
      case Failure(e) =>
        return Failure(e);
      case Success(raw) =>
        var name := Trim(raw);
        if NameTaken(rows, user, name, None) {
          return Failure(Duplicate);
        }
        var c := Category(nextId, user, name, true, createdAt);
        rows := rows + [c];
        nextId := nextId + 1;
        return Success(c);
    }

    /** PUT /categories/:id. An inactive category can be renamed too. */
    method Rename(user: nat, id: nat, body: Body) returns (r: Result<Category, CategoryError>)
      requires Valid()
      modifies this
      ensures Valid() && nextId == old(nextId)
      ensures NameOf(body).Failure? ==> r == Failure(InvalidBody) && rows == old(rows)
      ensures NameOf(body).Success? && !HasOwned(old(rows), user, id) ==> r == Failure(NotFound) && rows == old(rows)
      ensures NameOf(body).Success? && HasOwned(old(rows), user, id)
              && NameTaken(old(rows), user, Trim(NameOf(body).value), Some(id)) ==>
        r == Failure(Duplicate) && rows == old(rows)
      ensures NameOf(body).Success? && HasOwned(old(rows), user, id)
              && !NameTaken(old(rows), user, Trim(NameOf(body).value), Some(id)) ==>
        && rows == Renamed(old(rows), user, id, Trim(NameOf(body).value))
        && r.Success? && r.value in rows && Owns(r.value, user, id) && r.value.name == Trim(NameOf(body).value)
    {
      match NameOf(body)
      case Failure(e) =>
        return Failure(e);
      case Success(raw) =>
        var name := Trim(raw);
        if !HasOwned(rows, user, id) {
          return Failure(NotFound);
        }
        if NameTaken(rows, user, name, Some(id)) {
          return Failure(Duplicate);
        }
        var i :| 0 <= i < |rows| && Owns(rows[i], user, id);
        RenameKeepsInvariant(rows, user, id, name);
        rows := Renamed(rows, user, id, name);
        return Success(rows[i]);
    }

    /** DELETE /categories/:id: a soft delete; deleting an inactive category succeeds again. */
    method Delete(user: nat, id: nat) returns (r: Result<(), CategoryError>)
      requires Valid()
      modifies this
      ensures Valid() && nextId == old(nextId)
      ensures !HasOwned(old(rows), user, id) ==> r == Failure(NotFound) && rows == old(rows)
      ensures HasOwned(old(rows), user, id) ==> r == Success(()) && rows == Deactivated(old(rows), user, id)
    {
      if !HasOwned(rows, user, id) {
        return Failure(NotFound);
      }
      DeactivateKeepsInvariant(rows, user, id);
      rows := Deactivated(rows, user, id);
      return Success(());
    }
  }
}
