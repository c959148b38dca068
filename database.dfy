/**
 * The item and container tables behind DB, as an in-memory table. Each SQL
 * statement of DB becomes an update of the table with the same observable
 * effect; CURRENT_DATE becomes an explicit day number `today`.
 */
module Database {
  import opened Results
  import opened Tags

  /** One row of the item table. Expiry is a day number; the fg and fresh
      columns hold display names as text, or null. */
  datatype Row = Row(
    name: string,
    container: string,
    quantity: int,
    expiry: int,
    fg: Option<string>,
    freshness: Option<string>)

  /** An item as getItem builds it, with its tags read back through fromString. */
  datatype Item<G> = Item(
    name: string,
    foodGroup: Option<G>,
    freshness: Option<FoodFreshness>,
    quantity: int,
    expiry: int)

  /** The WHERE name = ... AND container = ... condition. */
  predicate Matches(row: Row, container: string, name: string)
  {
    row.name == name && row.container == container
  }

  /** No two rows share both a container and a name. */
  predicate UniqueKeys(rows: seq<Row>)
  {
    forall i, j :: 0 <= i < j < |rows| ==> !SameKey(rows[i], rows[j])
  }

  // ---------------------------------------------------------------------
  // Reading rows back (getItem)
  // ---------------------------------------------------------------------

  /** The position of the first row from i on with the given container and name. */
  function FindFrom(rows: seq<Row>, container: string, name: string, i: nat): (r: Option<nat>)
    requires i <= |rows|
    ensures r.Some? ==> i <= r.value < |rows| && Matches(rows[r.value], container, name)
    ensures r.Some? ==> forall k :: i <= k < r.value ==> !Matches(rows[k], container, name)
    ensures r.None? ==> forall k :: i <= k < |rows| ==> !Matches(rows[k], container, name)
    decreases |rows| - i
  {
    if i == |rows| then None
    else if Matches(rows[i], container, name) then Some(i)
    else FindFrom(rows, container, name, i + 1)
  }

  /** The position of the row rs.next() yields first. */
  function Find(rows: seq<Row>, container: string, name: string): Option<nat>
  {
    FindFrom(rows, container, name, 0)
  }

  /** A nullable tag column read through GenericTag.fromString. */
  function ReadTag<T>(domain: TagDomain<T>, column: Option<string>): (r: Result<Option<T>>)
    ensures column.None? ==> r == Ok(None)
    ensures column.Some? ==> (r.Ok? <==> Lookup(domain, column.value).Ok?)
    ensures column.Some? && r.Ok? ==> r.value == Some(Lookup(domain, column.value).value)
  {
    match column
    case None => Ok(None)
    case Some(text) =>
      match Lookup(domain, text)
      case Ok(v) => Ok(Some(v))
      case Err(m) => Err(m)
  }

  /** Item.getInstance over one row: the food-group column is read first,
      then the freshness column; either may throw. */
  function ReadRow<G>(groups: TagDomain<G>, row: Row): (r: Result<Item<G>>)
    ensures r.Ok? <==> ReadTag(groups, row.fg).Ok? && ReadTag(FreshnessDomain, row.freshness).Ok?
    ensures r.Ok? ==> r.value.name == row.name && r.value.quantity == row.quantity
                      && r.value.expiry == row.expiry
                      && r.value.foodGroup == ReadTag(groups, row.fg).value
                      && r.value.freshness == ReadTag(FreshnessDomain, row.freshness).value
  {
    match ReadTag(groups, row.fg)
    case Err(m) => Err(m)
    case Ok(fg) =>
      match ReadTag(FreshnessDomain, row.freshness)
      case Err(m) => Err(m)
      case Ok(freshness) => Ok(Item(row.name, fg, freshness, row.quantity, row.expiry))
  }

  /** getItem(c, name) on a table: null when no row has both that name and
      that container, otherwise the first such row read back, or the
      IllegalArgumentException of an unknown stored tag (only SQLException
      is caught). */
  function SelectItem<G>(groups: TagDomain<G>, rows: seq<Row>, container: string, name: string)
    : (r: Result<Option<Item<G>>>)
    ensures r == Ok(None) <==> forall k :: 0 <= k < |rows| ==> !Matches(rows[k], container, name)
    ensures r.Ok? && r.value.Some? ==>
      exists k :: 0 <= k < |rows| && Matches(rows[k], container, name) && ReadRow(groups, rows[k]) == Ok(r.value.value)
    ensures r.Err? ==>
      exists k :: 0 <= k < |rows| && Matches(rows[k], container, name) && ReadRow(groups, rows[k]).Err?
  {
    match Find(rows, container, name)
    case None => Ok(None)
    case Some(k) =>
      match ReadRow(groups, rows[k])
      case Ok(item) => Ok(Some(item))
      case Err(m) => Err(m)
  }

  /** The rows of one container, in table order. */
  function RowsIn(rows: seq<Row>, container: string): (r: seq<Row>)
    ensures forall row :: row in r <==> row in rows && row.container == container
  {
    if rows == [] then []
    else (if rows[0].container == container then [rows[0]] else []) + RowsIn(rows[1..], container)
  }

  /** A list read so far, put in front of the outcome of reading the rest. */
  function Prepend<T>(done: seq<T>, rest: Result<seq<T>>): Result<seq<T>>
  {
    match rest
    case Ok(more) => Ok(done + more)
    case Err(m) => Err(m)
  }

  /** retrieveItems over the given rows of one container: getItem(c, name)
      for each in turn, null included, the first exception ending the whole
      call. */
  function ReadAll<G>(groups: TagDomain<G>, rows: seq<Row>, keys: seq<Row>, container: string)
    : (r: Result<seq<Option<Item<G>>>>)
  {
    if keys == [] then Ok([])
    else
      match SelectItem(groups, rows, container, keys[0].name)
      case Err(m) => Err(m)
      case Ok(found) => Prepend([found], ReadAll(groups, rows, keys[1..], container))
  }

  /** What retrieveItems' list holds: getItem's answer for each key, in
      order; or the exception getItem threw for one of them. */
  lemma {:induction false} ReadAllMeaning<G>(groups: TagDomain<G>, rows: seq<Row>, keys: seq<Row>, container: string)
    ensures var r := ReadAll(groups, rows, keys, container);
      r.Ok? ==> (|r.value| == |keys|
                 && forall k :: 0 <= k < |keys| ==> SelectItem(groups, rows, container, keys[k].name) == Ok(r.value[k]))
    ensures var r := ReadAll(groups, rows, keys, container);
      r.Err? ==> exists k :: 0 <= k < |keys| && SelectItem(groups, rows, container, keys[k].name) == Err(r.message)
  {
    if keys != [] {
      ReadAllMeaning(groups, rows, keys[1..], container);
      assert forall k :: 1 <= k < |keys| ==> keys[k] == keys[1..][k - 1];
    }
  }

  /** Putting b and then a in front is putting a + b in front. */
  lemma PrependPrepend<T>(a: seq<T>, b: seq<T>, rest: Result<seq<T>>)
    ensures Prepend(a, Prepend(b, rest)) == Prepend(a + b, rest)
  {
    if rest.Ok? {
      assert a + (b + rest.value) == a + b + rest.value;
    }
  }

  /** Reading a list of rows reads its first row, then the rest. */
  lemma ReadAllCons<G>(groups: TagDomain<G>, rows: seq<Row>, key: Row, rest: seq<Row>, container: string)
    ensures var first := SelectItem(groups, rows, container, key.name);
      ReadAll(groups, rows, [key] + rest, container)
      == if first.Err? then Err(first.message) else Prepend([first.value], ReadAll(groups, rows, rest, container))
  {
    assert ([key] + rest)[1..] == rest;
  }

  /** The rows of a container from position i on: the row at i, when it is
      in the container, then those from i + 1 on. */
  lemma RowsInStep(rows: seq<Row>, i: nat, container: string)
    requires i < |rows|
    ensures RowsIn(rows[i..], container)
      == (if rows[i].container == container then [rows[i]] else []) + RowsIn(rows[i + 1..], container)
  {
    assert rows[i..][1..] == rows[i + 1..];
  }

  /** Every row of the container reads back as an item, never null: the
      list retrieveItems builds holds no null. */
  lemma ReadAllFindsEveryRow<G>(groups: TagDomain<G>, rows: seq<Row>, container: string)
    requires ReadAll(groups, rows, RowsIn(rows, container), container).Ok?
    ensures forall x :: x in ReadAll(groups, rows, RowsIn(rows, container), container).value ==> x.Some?
  {
    var keys := RowsIn(rows, container);
    ReadAllMeaning(groups, rows, keys, container);
    var r := ReadAll(groups, rows, keys, container).value;
    forall x | x in r ensures x.Some? {
      var k :| 0 <= k < |r| && r[k] == x;
      assert keys[k] in rows && keys[k].container == container;
      var j :| 0 <= j < |rows| && rows[j] == keys[k];
      assert Matches(rows[j], container, keys[k].name);
    }
  }

  // ---------------------------------------------------------------------
  // Table updates
  // ---------------------------------------------------------------------

  /** DELETE FROM item WHERE name = name: the rows of every container with
      another name, in their order. */
  function WithoutName(rows: seq<Row>, name: string): (r: seq<Row>)
    ensures forall row :: row in r <==> row in rows && row.name != name
    ensures |r| <= |rows|
  {
    if rows == [] then []
    else (if rows[0].name == name then [] else [rows[0]]) + WithoutName(rows[1..], name)
  }

  /** Deletion of the rows with both the given container and name. */
  function WithoutKey(rows: seq<Row>, container: string, name: string): (r: seq<Row>)
    ensures forall row :: row in r <==> row in rows && !Matches(row, container, name)
    ensures |r| <= |rows|
  {
    if rows == [] then []
    else (if Matches(rows[0], container, name) then [] else [rows[0]]) + WithoutKey(rows[1..], container, name)
  }

  /** DELETE FROM item WHERE container = c. */
  function WithoutContainer(rows: seq<Row>, container: string): (r: seq<Row>)
    ensures forall row :: row in r <==> row in rows && row.container != container
    ensures |r| <= |rows|
  {
    if rows == [] then []
    else (if rows[0].container == container then [] else [rows[0]]) + WithoutContainer(rows[1..], container)
  }

  /** An UPDATE ... WHERE name = ? AND container = ?: change applied to the
      matching rows, every other row left as it is. */
  function UpdateWhere(rows: seq<Row>, container: string, name: string, change: Row -> Row): (r: seq<Row>)
  {
    seq(|rows|, i requires 0 <= i < |rows| => if Matches(rows[i], container, name) then change(rows[i]) else rows[i])
  }

  /** SET fg = ..., fresh = ... for the non-null values only. */
  function SetTagColumns(row: Row, fg: Option<string>, freshness: Option<string>): Row
  {
    row.(fg := if fg.Some? then fg else row.fg, freshness := if freshness.Some? then freshness else row.freshness)
  }

  /** The display name of an optional constant, as the SET clause writes it. */
  function LabelOf<T>(domain: TagDomain<T>, v: Option<T>): (r: Option<string>)
    ensures r.Some? <==> v.Some?
    ensures v.Some? ==> r == Some(domain.displayName(v.value))
  {
    match v
    case None => None
    case Some(t) => Some(domain.displayName(t))
  }

  // ---------------------------------------------------------------------
  // Freshness
  // ---------------------------------------------------------------------

  /** The CASE of batchUpdateItemFreshness: before today is Expired; after
      today and at most seven days on is Near_Expiry; everything else,
      including an expiry of today itself, is Fresh. */
  function Classify(expiry: int, today: int): (f: FoodFreshness)
    ensures f == Expired <==> expiry < today
    ensures f == NearExpiry <==> today < expiry <= today + 7
    ensures f == Fresh <==> expiry == today || expiry > today + 7
  {
    if expiry < today then Expired
    else if expiry > today && expiry <= today + 7 then NearExpiry
    else Fresh
  }

  /** One row under the batch update of a container. */
  function RefreshRow(row: Row, container: string, today: int): Row
  {
    if row.container == container
    then row.(freshness := Some(FreshnessLabel(Classify(row.expiry, today))))
    else row
  }

  /** UPDATE item SET fresh = CASE ... END WHERE container = c. */
  function Refreshed(rows: seq<Row>, container: string, today: int): (r: seq<Row>)
    ensures |r| == |rows|
  {
    seq(|rows|, i requires 0 <= i < |rows| => RefreshRow(rows[i], container, today))
  }

  /** The batch update of each container of the list in turn. */
  function RefreshedAll(rows: seq<Row>, containers: seq<string>, today: int): (r: seq<Row>)
    ensures |r| == |rows|
  {
    if containers == [] then rows
    else Refreshed(RefreshedAll(rows, containers[..|containers| - 1], today), containers[|containers| - 1], today)
  }

  // ---------------------------------------------------------------------
  // Container names
  // ---------------------------------------------------------------------

  /** DELETE from container WHERE container_name = name. */
  function WithoutContainerName(names: seq<string>, name: string): (r: seq<string>)
    ensures forall n :: n in r <==> n in names && n != name
  {
    if names == [] then []
    else (if names[0] == name then [] else [names[0]]) + WithoutContainerName(names[1..], name)
  }

  /** UPDATE container SET container_name = newName WHERE container_name = prevName. */
  function Renamed(names: seq<string>, prevName: string, newName: string): (r: seq<string>)
    ensures |r| == |names|
  {
    seq(|names|, i requires 0 <= i < |names| => if names[i] == prevName then newName else names[i])
  }

  /** After a rename the old name is no longer found, and the new name is
      found exactly when it or the old name was there before. */
  lemma RenamedFound(names: seq<string>, prevName: string, newName: string)
    ensures prevName != newName ==> prevName !in Renamed(names, prevName, newName)
    ensures newName in Renamed(names, prevName, newName) <==> newName in names || prevName in names
  {
    var r := Renamed(names, prevName, newName);
    if newName in names {
      var i :| 0 <= i < |names| && names[i] == newName;
      assert r[i] == newName;
    }
    if prevName in names {
      var i :| 0 <= i < |names| && names[i] == prevName;
      assert r[i] == newName;
    }
  }

  /** The in-memory store: the container table and the item table. */
  class DB<G(==)> {
    /** The FoodGroup enum the fg column is read back with. */
    const groups: TagDomain<G>
    var containers: seq<string>
    var items: seq<Row>

    /** No two item rows share a container and a name. */
    predicate Valid()
      reads this
    {
      UniqueKeys(items)
    }

    constructor (groups: TagDomain<G>)
      ensures this.groups == groups && containers == [] && items == []
      ensures Valid()
    {
      this.groups := groups;
      containers := [];
      items := [];
    }

    /** putContainer: INSERT into container. */
    method PutContainer(name: string)
      modifies this
      ensures containers == old(containers) + [name]
      ensures items == old(items)
    {
      containers := containers + [name];
    }

    /** retrieveContainers: every container name, in table order. */
    method RetrieveContainers() returns (names: seq<string>)
      ensures names == containers
    {
      names := [];
      var i := 0;
      while i < |containers|
        invariant 0 <= i <= |containers|
        invariant names == containers[..i]
      {
        names := names + [containers[i]];
        i := i + 1;
      }
    }

    /** findContainer(name): whether the container table holds that name. */
    predicate FindContainer(name: string): (found: bool)
      reads this
      ensures found <==> exists i :: 0 <= i < |containers| && containers[i] == name
    {
      name in containers
    }

    /** addContainer(name, c): putContainer(name); c is not used. */
    method AddContainer(name: string)
      modifies this
      ensures containers == old(containers) + [name]
      ensures items == old(items)
    {
      PutContainer(name);
    }

    /** removeContainer: deletes the container entry only; the items that
        name it stay in the item table. */
    method RemoveContainer(name: string)
      modifies this
      ensures containers == WithoutContainerName(old(containers), name)
      ensures items == old(items)
    {
      containers := WithoutContainerName(containers, name);
    }

    /** editContainer: renames the container entries called prevName; the
        items keep the old container name. */
    method EditContainer(prevName: string, newName: string)
      modifies this
      ensures containers == Renamed(old(containers), prevName, newName)
      ensures items == old(items)
    {
      containers := Renamed(containers, prevName, newName);
    }

    /** emptyContainer: deletes every item of container c. */
    method EmptyContainer(c: string)
      modifies this
      ensures items == WithoutContainer(old(items), c)
      ensures containers == old(containers)
      ensures old(Valid()) ==> Valid()
    {
      if UniqueKeys(items) {
        WithoutContainerKeepsKeysUnique(items, c);
      }
      items := WithoutContainer(items, c);
    }

    /** getItem(c, name). */
    function GetItem(c: string, name: string): (r: Result<Option<Item<G>>>)
      reads this
      ensures r == SelectItem(groups, items, c, name)
    {
      SelectItem(groups, items, c, name)
    }

    /** retrieveItems(c): getItem(c, name) for each row of c in table
        order; an unknown stored tag ends the call with its exception. */
    method RetrieveItems(c: string) returns (r: Result<seq<Option<Item<G>>>>)
      ensures r == ReadAll(groups, items, RowsIn(items, c), c)
    {
      var list: seq<Option<Item<G>>> := [];
      var i := 0;
      assert items[0..] == items;
      var whole := ReadAll(groups, items, RowsIn(items, c), c);
      assert whole.Ok? ==> [] + whole.value == whole.value;
      while i < |items|
        invariant 0 <= i <= |items|
        invariant ReadAll(groups, items, RowsIn(items, c), c)
                  == Prepend(list, ReadAll(groups, items, RowsIn(items[i..], c), c))
      {
        RowsInStep(items, i, c);
        if items[i].container == c {
          var rest := ReadAll(groups, items, RowsIn(items[i + 1..], c), c);
          ReadAllCons(groups, items, items[i], RowsIn(items[i + 1..], c), c);
          var found := GetItem(c, items[i].name);
          if found.Err? {
            return Err(found.message);
          }
          PrependPrepend(list, [found.value], rest);
          list := list + [found.value];
        } else {
          assert [] + RowsIn(items[i + 1..], c) == RowsIn(items[i + 1..], c);
        }
        i := i + 1;
      }
      assert items[i..] == [];
      assert list + [] == list;
      return Ok(list);
    }

    /** addItem(c, name, ite): does nothing when getItem(c, name) finds an
        item (and lets its exception through); otherwise inserts one row
        with that name and container, ite's quantity and expiry, and no
        tags. */
    method AddItem(c: string, name: string, ite: Item<G>) returns (outcome: Outcome)
      modifies this
      ensures old(GetItem(c, name)).Err? ==> outcome == Thrown(old(GetItem(c, name)).message) && items == old(items)
      ensures old(GetItem(c, name)).Ok? && old(GetItem(c, name)).value.Some? ==> outcome == Done && items == old(items)
      ensures old(GetItem(c, name)) == Ok(None) ==>
        outcome == Done && items == old(items) + [Row(name, c, ite.quantity, ite.expiry, None, None)]
      ensures containers == old(containers)
      ensures old(Valid()) ==> Valid()
    {
      var existing := GetItem(c, name);
      if existing.Err? {
        return Thrown(existing.message);
      }
      if existing.value.Some? {
        return Done;
      }
      var row := Row(name, c, ite.quantity, ite.expiry, None, None);
      if UniqueKeys(items) {
        InsertKeepsKeysUnique(groups, items, row);
      }
      items := items + [row];
      return Done;
    }

    /** removeItem(c, name, ite): DELETE FROM item WHERE name = name, in
        every container; c and ite are not used. */
    method RemoveItem(c: string, name: string, ite: Item<G>)
      modifies this
      ensures items == WithoutName(old(items), name)
      ensures containers == old(containers)
      ensures old(Valid()) ==> Valid()
    {
      if UniqueKeys(items) {
        WithoutNameKeepsKeysUnique(items, name);
      }
      items := WithoutName(items, name);
    }

    /** The two-argument removeItem(c, name) that ItemUtility calls; DB.java
        does not define it. Assumed effect: delete the item c holds under
        that name. */
    method RemoveItemFrom(c: string, name: string)
      modifies this
      ensures items == WithoutKey(old(items), c, name)
      ensures containers == old(containers)
      ensures old(Valid()) ==> Valid()
    {
      if UniqueKeys(items) {
        WithoutKeyKeepsKeysUnique(items, c, name);
      }
      items := WithoutKey(items, c, name);
    }

    /** updateItem(c, name, fg, fresh): nothing when both are null;
        otherwise sets the non-null columns of the row of c with that name. */
    method UpdateItem(c: string, name: string, newFoodGroup: Option<G>, newFreshness: Option<FoodFreshness>)
      modifies this
      ensures newFoodGroup.None? && newFreshness.None? ==> items == old(items)
      ensures newFoodGroup.Some? || newFreshness.Some? ==>
        var fg, freshness := LabelOf(groups, newFoodGroup), LabelOf(FreshnessDomain, newFreshness);
        items == UpdateWhere(old(items), c, name, row => SetTagColumns(row, fg, freshness))
      ensures containers == old(containers)
      ensures old(Valid()) ==> Valid()
    {
      if newFoodGroup.None? && newFreshness.None? {
        return;
      }
      var fg, freshness := LabelOf(groups, newFoodGroup), LabelOf(FreshnessDomain, newFreshness);
      if UniqueKeys(items) {
        UpdateKeepsKeysUnique(items, c, name, row => SetTagColumns(row, fg, freshness));
      }
      items := UpdateWhere(items, c, name, row => SetTagColumns(row, fg, freshness));
    }

    /** The updateItemFoodGroup(c, name, fg) that ItemUtility calls; DB.java
        does not define it. Assumed effect: set the food group of the item c
        holds under that name. */
    method UpdateItemFoodGroup(c: string, name: string, fg: G)
      modifies this
      ensures items == UpdateWhere(old(items), c, name, (row: Row) => row.(fg := Some(groups.displayName(fg))))
      ensures containers == old(containers)
      ensures old(Valid()) ==> Valid()
    {
      if UniqueKeys(items) {
        UpdateKeepsKeysUnique(items, c, name, (row: Row) => row.(fg := Some(groups.displayName(fg))));
      }
      items := UpdateWhere(items, c, name, (row: Row) => row.(fg := Some(groups.displayName(fg))));
    }

    /** The updateQuantity(name, quantity, c) that ItemUtility calls; DB.java
        does not define it. Assumed effect: set the quantity of the item c
        holds under that name. */
    method UpdateQuantity(name: string, quantity: int, c: string)
      modifies this
      ensures items == UpdateWhere(old(items), c, name, (row: Row) => row.(quantity := quantity))
      ensures containers == old(containers)
      ensures old(Valid()) ==> Valid()
    {
      if UniqueKeys(items) {
        UpdateKeepsKeysUnique(items, c, name, (row: Row) => row.(quantity := quantity));
      }
      items := UpdateWhere(items, c, name, (row: Row) => row.(quantity := quantity));
    }

    /** batchUpdateItemFreshness(c) on day today. */
    method BatchUpdateItemFreshness(c: string, today: int)
      modifies this
      ensures items == Refreshed(old(items), c, today)
      ensures containers == old(containers)
      ensures old(Valid()) ==> Valid()
    {
      if UniqueKeys(items) {
        RefreshedKeepsKeysUnique(items, c, today);
      }
      items := Refreshed(items, c, today);
    }
  }

  // ---------------------------------------------------------------------
  // Properties of the store
  // ---------------------------------------------------------------------

  /** getItem finds what addItem inserted: the inserted row reads back as an
      item with that name, quantity and expiry and no tags. */
  lemma SelectAfterInsert<G>(groups: TagDomain<G>, rows: seq<Row>, c: string, name: string, quantity: int, expiry: int)
    requires SelectItem(groups, rows, c, name) == Ok(None)
    ensures SelectItem(groups, rows + [Row(name, c, quantity, expiry, None, None)], c, name)
            == Ok(Some(Item(name, None, None, quantity, expiry)))
  {
    var rows' := rows + [Row(name, c, quantity, expiry, None, None)];
    assert Matches(rows'[|rows|], c, name);
    assert forall k :: 0 <= k < |rows| ==> rows'[k] == rows[k];
    assert Find(rows', c, name) == Some(|rows|);
  }

  /** Inserting only when getItem finds nothing keeps (container, name)
      unique, so a second addItem of the same name is a no-op. */
  lemma InsertKeepsKeysUnique<G>(groups: TagDomain<G>, rows: seq<Row>, row: Row)
    requires UniqueKeys(rows)
    requires SelectItem(groups, rows, row.container, row.name) == Ok(None)
    ensures UniqueKeys(rows + [row])
  {
  }

  /** Both rows have the same container and the same name. */
  predicate SameKey(a: Row, b: Row)
  {
    a.name == b.name && a.container == b.container
  }

  lemma UniqueKeysHeadTail(rows: seq<Row>)
    requires rows != []
    ensures UniqueKeys(rows) <==>
      UniqueKeys(rows[1..]) && forall row :: row in rows[1..] ==> !SameKey(rows[0], row)
  {
    if UniqueKeys(rows[1..]) && forall row :: row in rows[1..] ==> !SameKey(rows[0], row) {
      forall i, j | 0 <= i < j < |rows| ensures !SameKey(rows[i], rows[j]) {
        if i > 0 {
          assert rows[i] == rows[1..][i - 1] && rows[j] == rows[1..][j - 1];
        } else {
          assert rows[j] in rows[1..];
        }
      }
    }
    if UniqueKeys(rows) {
      forall i, j | 0 <= i < j < |rows| - 1 ensures !SameKey(rows[1..][i], rows[1..][j]) {
        assert rows[1..][i] == rows[i + 1] && rows[1..][j] == rows[j + 1];
      }
    }
  }

  /** Deleting the rows of one name keeps (container, name) unique. */
  lemma {:induction false} WithoutNameKeepsKeysUnique(rows: seq<Row>, name: string)
    requires UniqueKeys(rows)
    ensures UniqueKeys(WithoutName(rows, name))
  {
    if rows != [] {
      UniqueKeysHeadTail(rows);
      WithoutNameKeepsKeysUnique(rows[1..], name);
      var rest := WithoutName(rows[1..], name);
      if rows[0].name != name {
        UniqueKeysHeadTail([rows[0]] + rest);
        assert ([rows[0]] + rest)[1..] == rest;
      }
    }
  }

  /** Deleting the rows of one key keeps (container, name) unique. */
  lemma {:induction false} WithoutKeyKeepsKeysUnique(rows: seq<Row>, c: string, name: string)
    requires UniqueKeys(rows)
    ensures UniqueKeys(WithoutKey(rows, c, name))
  {
    if rows != [] {
      UniqueKeysHeadTail(rows);
      WithoutKeyKeepsKeysUnique(rows[1..], c, name);
      var rest := WithoutKey(rows[1..], c, name);
      if !Matches(rows[0], c, name) {
        UniqueKeysHeadTail([rows[0]] + rest);
        assert ([rows[0]] + rest)[1..] == rest;
      }
    }
  }

  /** Emptying a container keeps (container, name) unique. */
  lemma {:induction false} WithoutContainerKeepsKeysUnique(rows: seq<Row>, c: string)
    requires UniqueKeys(rows)
    ensures UniqueKeys(WithoutContainer(rows, c))
  {
    if rows != [] {
      UniqueKeysHeadTail(rows);
      WithoutContainerKeepsKeysUnique(rows[1..], c);
      var rest := WithoutContainer(rows[1..], c);
      if rows[0].container != c {
        UniqueKeysHeadTail([rows[0]] + rest);
        assert ([rows[0]] + rest)[1..] == rest;
      }
    }
  }

  /** Updates that leave names and containers alone keep (container, name)
      unique; every update of the store is of this kind. */
  lemma UpdateKeepsKeysUnique(rows: seq<Row>, c: string, name: string, change: Row -> Row)
    requires UniqueKeys(rows)
    requires forall row :: change(row).name == row.name && change(row).container == row.container
    ensures UniqueKeys(UpdateWhere(rows, c, name, change))
  {
  }

  /** updateItem touches only the row with both that name and that
      container, and in it only the columns given a non-null value. */
  lemma UpdateItemTouchesOnlyItsRow(rows: seq<Row>, c: string, name: string, fg: Option<string>, freshness: Option<string>, k: nat)
    requires k < |rows|
    ensures var r := UpdateWhere(rows, c, name, row => SetTagColumns(row, fg, freshness))[k];
      && (!Matches(rows[k], c, name) ==> r == rows[k])
      && r.name == rows[k].name && r.container == rows[k].container
      && r.quantity == rows[k].quantity && r.expiry == rows[k].expiry
      && r.fg == (if fg.Some? && Matches(rows[k], c, name) then fg else rows[k].fg)
      && r.freshness == (if freshness.Some? && Matches(rows[k], c, name) then freshness else rows[k].freshness)
  {
  }

  /** removeItem deletes the named item from every container, not only
      from the one it is given. */
  lemma RemoveItemIgnoresContainer<G>(groups: TagDomain<G>, rows: seq<Row>, name: string, other: string)
    ensures SelectItem(groups, WithoutName(rows, name), other, name) == Ok(None)
  {
  }

  /** After the two-argument removal, getItem no longer finds the item. */
  lemma SelectAfterRemoveFrom<G>(groups: TagDomain<G>, rows: seq<Row>, c: string, name: string)
    ensures SelectItem(groups, WithoutKey(rows, c, name), c, name) == Ok(None)
    ensures forall other :: other != c ==> SelectItem(groups, WithoutKey(rows, c, name), other, name)
                                           == SelectItem(groups, rows, other, name)
  {
    var rest := WithoutKey(rows, c, name);
    forall other | other != c
      ensures SelectItem(groups, rest, other, name) == SelectItem(groups, rows, other, name)
    {
      SelectIgnoresOtherKeys(groups, rows, c, name, other);
    }
  }

  /** Deleting the item of one container does not change what getItem
      returns for the same name in another container. */
  lemma SelectIgnoresOtherKeys<G>(groups: TagDomain<G>, rows: seq<Row>, c: string, name: string, other: string)
    requires other != c
    ensures SelectItem(groups, WithoutKey(rows, c, name), other, name) == SelectItem(groups, rows, other, name)
  {
    FirstRowIgnoresOtherKeys(rows, c, name, other);
  }

  /** The row rs.next() yields first, if any. */
  function FirstRow(rows: seq<Row>, c: string, name: string): Option<Row>
  {
    match Find(rows, c, name)
    case None => None
    case Some(k) => Some(rows[k])
  }

  lemma FirstRowShift(rows: seq<Row>, c: string, name: string)
    requires rows != []
    ensures FirstRow(rows, c, name) == if Matches(rows[0], c, name) then Some(rows[0]) else FirstRow(rows[1..], c, name)
  {
    FindShift(rows, c, name);
    var g := Find(rows[1..], c, name);
    if !Matches(rows[0], c, name) && g.Some? {
      assert rows[g.value + 1] == rows[1..][g.value];
    }
  }

  lemma {:induction false} FirstRowIgnoresOtherKeys(rows: seq<Row>, c: string, name: string, other: string)
    requires other != c
    ensures FirstRow(WithoutKey(rows, c, name), other, name) == FirstRow(rows, other, name)
  {
    if rows != [] {
      FirstRowIgnoresOtherKeys(rows[1..], c, name, other);
      FirstRowShift(rows, other, name);
      var rest := WithoutKey(rows[1..], c, name);
      if Matches(rows[0], c, name) {
        assert WithoutKey(rows, c, name) == rest;
      } else {
        assert WithoutKey(rows, c, name) == [rows[0]] + rest;
        FirstRowShift([rows[0]] + rest, other, name);
        assert ([rows[0]] + rest)[1..] == rest;
      }
    }
  }

  /** The first match in a table is the head, or one past the first match
      in its tail. */
  lemma FindShift(rows: seq<Row>, c: string, name: string)
    requires rows != []
    ensures Find(rows, c, name) ==
      if Matches(rows[0], c, name) then Some(0)
      else match Find(rows[1..], c, name) case None => None case Some(k) => Some(k + 1)
  {
    var f, g := Find(rows, c, name), Find(rows[1..], c, name);
    if !Matches(rows[0], c, name) {
      if f.Some? {
        assert g.Some? && g.value <= f.value - 1 by {
          assert Matches(rows[1..][f.value - 1], c, name);
        }
        assert rows[g.value + 1] == rows[1..][g.value];
      }
    }
  }

  /** Every row of the container is classified, by its own expiry date;
      rows of other containers keep their freshness. */
  lemma RefreshedRows(rows: seq<Row>, c: string, today: int, k: nat)
    requires k < |rows|
    ensures var r := Refreshed(rows, c, today)[k];
      && r.name == rows[k].name && r.container == rows[k].container
      && r.quantity == rows[k].quantity && r.expiry == rows[k].expiry && r.fg == rows[k].fg
      && (rows[k].container == c ==> r.freshness == Some(FreshnessLabel(Classify(rows[k].expiry, today))))
      && (rows[k].container != c ==> r == rows[k])
  {
  }

  /** The batch update keeps (container, name) unique. */
  lemma RefreshedKeepsKeysUnique(rows: seq<Row>, c: string, today: int)
    requires UniqueKeys(rows)
    ensures UniqueKeys(Refreshed(rows, c, today))
  {
  }

  /** Refreshing each container of a list keeps (container, name) unique. */
  lemma {:induction false} RefreshedAllKeepsKeysUnique(rows: seq<Row>, containers: seq<string>, today: int)
    requires UniqueKeys(rows)
    ensures UniqueKeys(RefreshedAll(rows, containers, today))
    decreases |containers|
  {
    if containers != [] {
      var init := containers[..|containers| - 1];
      RefreshedAllKeepsKeysUnique(rows, init, today);
      RefreshedKeepsKeysUnique(RefreshedAll(rows, init, today), containers[|containers| - 1], today);
    }
  }

  /** Applying the batch update twice is the same as applying it once. */
  lemma RefreshedIdempotent(rows: seq<Row>, c: string, today: int)
    ensures Refreshed(Refreshed(rows, c, today), c, today) == Refreshed(rows, c, today)
  {
  }

  /** Refreshing each container of a list leaves every row of a listed
      container classified and every other row untouched. */
  lemma {:induction false} RefreshedAllRows(rows: seq<Row>, containers: seq<string>, today: int, k: nat)
    requires k < |rows|
    ensures RefreshedAll(rows, containers, today)[k] ==
      if rows[k].container in containers then RefreshRow(rows[k], rows[k].container, today) else rows[k]
    decreases |containers|
  {
    if containers != [] {
      var init := containers[..|containers| - 1];
      RefreshedAllRows(rows, init, today, k);
      assert containers == init + [containers[|containers| - 1]];
    }
  }

  /** After the batch update, getItem reads the freshness it wrote back as
      the state of the classifier, unless the food-group text is unknown. */
  lemma SelectAfterRefresh<G>(groups: TagDomain<G>, rows: seq<Row>, c: string, name: string, today: int)
    requires UniqueKeys(rows)
    requires exists k :: 0 <= k < |rows| && Matches(rows[k], c, name) && ReadTag(groups, rows[k].fg).Ok?
    ensures var r := SelectItem(groups, Refreshed(rows, c, today), c, name);
      r.Ok? && r.value.Some? && r.value.value.freshness == Some(Classify(r.value.value.expiry, today))
  {
    var rows' := Refreshed(rows, c, today);
    var k :| 0 <= k < |rows| && Matches(rows[k], c, name) && ReadTag(groups, rows[k].fg).Ok?;
    assert Matches(rows'[k], c, name);
    var j := Find(rows', c, name).value;
    assert j == k;
    LookupFreshnessLabel(Classify(rows[k].expiry, today));
  }

  /** How many rows have the given container and name. */
  function CountKey(rows: seq<Row>, c: string, name: string): (n: nat)
    ensures n == 0 <==> forall k :: 0 <= k < |rows| ==> !Matches(rows[k], c, name)
    ensures n <= |rows|
  {
    if rows == [] then 0
    else
      assert forall k :: 1 <= k < |rows| ==> rows[k] == rows[1..][k - 1];
      (if Matches(rows[0], c, name) then 1 else 0) + CountKey(rows[1..], c, name)
  }

  /** Appending a row adds one to the count exactly when it has that key. */
  lemma {:induction false} CountKeyAppend(rows: seq<Row>, row: Row, c: string, name: string)
    ensures CountKey(rows + [row], c, name) == CountKey(rows, c, name) + if Matches(row, c, name) then 1 else 0
  {
    if rows != [] {
      assert (rows + [row])[1..] == rows[1..] + [row];
      CountKeyAppend(rows[1..], row, c, name);
    }
  }

  /** addItem called twice with the same container and name on a table
      without that item: the second call changes nothing, and the container
      holds exactly one item of that name, with the first call's data. */
  method AddItemTwice<G>(db: DB<G>, c: string, name: string, first: Item<G>, second: Item<G>)
    returns (outcome1: Outcome, outcome2: Outcome)
    modifies db
    requires db.GetItem(c, name) == Ok(None)
    ensures outcome1 == Done && outcome2 == Done
    ensures db.items == old(db.items) + [Row(name, c, first.quantity, first.expiry, None, None)]
    ensures CountKey(db.items, c, name) == 1
    ensures db.GetItem(c, name) == Ok(Some(Item(name, None, None, first.quantity, first.expiry)))
    ensures old(db.Valid()) ==> db.Valid()
  {
    outcome1 := db.AddItem(c, name, first);
    SelectAfterInsert(db.groups, old(db.items), c, name, first.quantity, first.expiry);
    outcome2 := db.AddItem(c, name, second);
    CountKeyAppend(old(db.items), Row(name, c, first.quantity, first.expiry, None, None), c, name);
  }
}
