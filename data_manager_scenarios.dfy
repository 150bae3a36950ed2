/**
 * The DataManagerTest cases restated as client code: each method performs the calls of
 * one JUnit case on a fresh table and asserts what that case asserts, using nothing but
 * the DataManager contracts. T.rows is the pair DYLAN {name: Dylan, age: 23} and
 * JOHN {name: John, age: 30}, submitted with no etag and no writer.
 */
module OdkTablesScenarios {
  import opened Wrappers
  import opened OdkTables

  const Dylan: Row := Row("DYLAN", None, None, map["name" := "Dylan", "age" := "23"], false)
  const John: Row := Row("JOHN", None, None, map["name" := "John", "age" := "30"], false)

  /** What inserting T.rows into an empty table produces. */
  lemma InsertBothRows(user: string)
    ensures Insertable(map[], [Dylan, John])
    ensures StampAll([Dylan, John], 0, user) == [Stamp(Dylan, EtagFor(0), user), Stamp(John, EtagFor(1), user)]
    ensures IdsOf([Dylan, John]) == ["DYLAN", "JOHN"]
    ensures PutAll(map[], StampAll([Dylan, John], 0, user)).Keys == {"DYLAN", "JOHN"}
    ensures PutAll(map[], StampAll([Dylan, John], 0, user))["DYLAN"] == Stamp(Dylan, EtagFor(0), user)
  {
    StampAllAt([Dylan, John], 0, user, 0);
    StampAllAt([Dylan, John], 0, user, 1);
    var s := StampAll([Dylan, John], 0, user);
    assert s[..1] == [s[0]];
    assert [s[0]][..0] == [];
    assert [Dylan, John][..1] == [Dylan];
    assert [Dylan][..0] == [];
    assert PutAll(map[], [s[0]]) == map[][s[0].rowId := s[0]];
    assert PutAll(map[], s) == map[][s[0].rowId := s[0]][s[1].rowId := s[1]];
  }

  /** The manager a test's setUp creates: a fresh table, written to by `user`. */
  method FreshTable(user: string) returns (dm: DataManager)
    ensures fresh(dm) && dm.Valid() && dm.user == user && dm.rows == map[] && dm.order == [] && dm.nextEtag == 0
  {
    dm := new DataManager(user);
  }

  method GetRowsEmptyScenario(user: string)
  {
    var dm := FreshTable(user);
    var rows := dm.GetRows();
    assert rows == [];
  }

  method InsertRowsScenario(user: string)
  {
    var dm := FreshTable(user);
    var actual := dm.InsertRows([Dylan, John]);
    assert Insertable(map[], [Dylan, John]);
    assert actual.Success? && |actual.value| == 2;
    StampAllAt([Dylan, John], 0, user, 0);
    StampAllAt([Dylan, John], 0, user, 1);
    // the inputs equal the results once the server-assigned etag and writer are copied in
    assert Dylan.(rowEtag := actual.value[0].rowEtag, groupOrUserId := actual.value[0].groupOrUserId) == actual.value[0];
    assert John.(rowEtag := actual.value[1].rowEtag, groupOrUserId := actual.value[1].groupOrUserId) == actual.value[1];
    assert actual.value[0].rowEtag.Some? && actual.value[1].rowEtag.Some?;
  }

  method InsertRowsAlreadyExistScenario(user: string)
  {
    var dm := FreshTable(user);
    var first := dm.InsertRows([Dylan, John]);
    assert Insertable(map[], [Dylan, John]);
    assert "DYLAN" in dm.rows by {
      assert first.Success?;
      assert dm.order == [] + IdsOf([Dylan, John]);
    }
    var second := dm.InsertRows([Dylan, John]);
    assert second == Failure(AlreadyExists);
  }

  method GetRowsScenario(user: string)
  {
    var dm := FreshTable(user);
    var inserted := dm.InsertRows([Dylan, John]);
    assert Insertable(map[], [Dylan, John]);
    var actual := dm.GetRows();
    assert actual == inserted.value;
    StampAllAt([Dylan, John], 0, user, 0);
    StampAllAt([Dylan, John], 0, user, 1);
    assert actual[0].rowId == "DYLAN" && actual[0].values == Dylan.values && actual[0].groupOrUserId == Some(user);
    assert actual[1].rowId == "JOHN" && actual[1].values == John.values && actual[1].groupOrUserId == Some(user);
  }

  method GetRowScenario(user: string)
  {
    var dm := FreshTable(user);
    var expected := dm.InsertRow(Dylan);
    var actual := dm.GetRow("DYLAN");
    assert actual == Some(expected.value);
  }

  method GetRowDoesNotExistScenario(user: string)
  {
    var dm := FreshTable(user);
    var row := dm.GetRow("DYLAN");
    assert row == None;
  }

  method GetRowNullSafeScenario(user: string)
  {
    var dm := FreshTable(user);
    var expected := dm.InsertRow(Dylan);
    var actual := dm.GetRowNullSafe("DYLAN");
    assert actual == Success(expected.value);
  }

  method GetRowNullSafeDoesNotExistScenario(user: string)
  {
    var dm := FreshTable(user);
    var actual := dm.GetRowNullSafe("DYLAN");
    assert actual == Failure(NotFound);
  }

  method UpdateRowScenario(user: string)
  {
    var dm := FreshTable(user);
    InsertBothRows(user);
    var rows := dm.InsertRows([Dylan, John]);
    assert rows.Success?;
    assert dm.rows == PutAll(map[], StampAll([Dylan, John], 0, user));
    assert dm.rows["DYLAN"] == rows.value[0];
    var expected := rows.value[0].(values := rows.value[0].values["age" := "24"]);
    var actual := dm.UpdateRow(expected);
    assert actual.Success?;
    assert expected.rowEtag != actual.value.rowEtag;
    assert expected.(rowEtag := actual.value.rowEtag) == actual.value;
    var reread := dm.GetRow("DYLAN");
    assert reread.value.values["age"] == "24";
  }

  method UpdateRowVersionMismatchScenario(user: string, randomEtag: string)
    requires randomEtag != EtagFor(0)
  {
    var dm := FreshTable(user);
    InsertBothRows(user);
    var rows := dm.InsertRows([Dylan, John]);
    assert rows.Success?;
    assert dm.rows == PutAll(map[], StampAll([Dylan, John], 0, user));
    var row := rows.value[0].(rowEtag := Some(randomEtag));
    assert row.rowId == "DYLAN";
    assert IsLive(dm.rows, "DYLAN") && dm.rows["DYLAN"].rowEtag == Some(EtagFor(0));
    var result := dm.UpdateRow(row);
    assert result == Failure(RowVersionMismatch);
  }

  /** Whatever etag is supplied, updating a row that was never inserted is NotFound. */
  method UpdateRowDoesNotExistScenario(user: string, randomEtag: string)
  {
    var dm := FreshTable(user);
    var result := dm.UpdateRow(Dylan.(rowEtag := Some(randomEtag)));
    assert result == Failure(NotFound);
  }

  method DeleteRowsScenario(user: string)
  {
    var dm := FreshTable(user);
    InsertBothRows(user);
    var inserted := dm.InsertRows([Dylan, John]);
    assert dm.rows.Keys == {"DYLAN", "JOHN"};
    ghost var before := dm.Rows();
    LiveRowsMembers(dm.order, dm.rows);
    var deleted := dm.DeleteRows(["DYLAN", "JOHN"]);
    assert deleted.Success?;
    WithoutIdsEmpty(before, ["DYLAN", "JOHN"]);
    var rows := dm.GetRows();
    assert rows == [];
  }
}
