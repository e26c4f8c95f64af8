/** The example usage at the end of `crudOperation/mydatabase.js`: six user
    records, an update of record 2 to Username "ABC" and a delete of record 3. */
module Example {
  import opened Outcomes
  import opened JsonRecords
  import opened FileSystem

  function User(id: real, name: string, age: real, city: string, company: string): Value
  {
    JObj(map["id" := JNum(id), "Username" := JStr(name), "Userage" := JNum(age),
             "Usercity" := JStr(city), "Usercompany" := JStr(company)])
  }

  /** The `jsonData` array of the example. */
  function Users(): seq<Value>
  {
    [ User(1.0, "Mudit", 21.0, "Amravati", "Innovapptive"),
      User(2.0, "Keshav", 22.0, "Amravati", "Innovapptive"),
      User(3.0, "Ayush", 23.0, "Yavatmal", "Google"),
      User(4.0, "Shubham", 24.0, "Nagpur", "Amazon"),
      User(5.0, "Sachin", 25.0, "Mumbai", "Accenture"),
      User(6.0, "Nikhil", 26.0, "Jabalpur", "DXC") ]
  }

  /** `newData` of the example. */
  function RenameToAbc(): Patch
  {
    map["Username" := JStr("ABC")]
  }

  /** The example's records form a collection whose `id`s are 1 to 6. */
  lemma UsersIds()
    ensures |Users()| == 6 && IsCollection(Users())
    ensures forall j, key :: 0 <= j < 6 ==> (IdMatches(Users()[j], key) <==> key == JNum((j + 1) as real))
  {
    var s := Users();
    forall j, key | 0 <= j < 6
      ensures IdMatches(s[j], key) <==> key == JNum((j + 1) as real)
    {
      assert s[j].fields["id"] == JNum((j + 1) as real) by {
        if j == 0 {} else if j == 1 {} else if j == 2 {} else if j == 3 {} else if j == 4 {} else {}
      }
    }
  }

  function AbcUser(): Value
  {
    User(2.0, "ABC", 22.0, "Amravati", "Innovapptive")
  }

  /** Updating id 2 changes only that record's Username. */
  lemma ExampleUpdate()
    ensures UpdateArray(JArr(Users()), JNum(2.0), RenameToAbc()) == Ok(JArr(Users()[1 := AbcUser()]))
  {
    var s := Users();
    UsersIds();
    FirstMatchOnCollection(s, JNum(2.0), 1);
    assert Merge(s[1].fields, RenameToAbc()) == AbcUser().fields;
  }

  /** Deleting id 3 leaves the five other records in their order. */
  lemma ExampleDelete()
    ensures DeleteFromArray(JArr(Users()), JNum(3.0))
            == Ok(JArr([Users()[0], Users()[1], Users()[3], Users()[4], Users()[5]]))
  {
    var s := Users();
    UsersIds();
    FirstMatchOnCollection(s, JNum(3.0), 2);
    assert Removed(s, 2) == [s[0], s[1], s[3], s[4], s[5]];
  }

  /** Deleting id 3 after the update of id 2. */
  lemma ExampleUpdateThenDelete()
    ensures DeleteFromArray(JArr(Users()[1 := AbcUser()]), JNum(3.0))
            == Ok(JArr([Users()[0], AbcUser(), Users()[3], Users()[4], Users()[5]]))
  {
    var s := Users()[1 := AbcUser()];
    UsersIds();
    assert IsCollection(s);
    assert !IdMatches(s[0], JNum(3.0)) && !IdMatches(s[1], JNum(3.0)) && IdMatches(s[2], JNum(3.0));
    FirstMatchOnCollection(s, JNum(3.0), 2);
    assert Removed(s, 2) == [s[0], s[1], s[3], s[4], s[5]];
  }

  /** Matching is strict: the string "2" is not the number 2, and 7 is no id. */
  lemma ExampleNoMatch()
    ensures UpdateArray(JArr(Users()), JStr("2"), RenameToAbc()) == Err(NoMatch)
    ensures DeleteFromArray(JArr(Users()), JNum(7.0)) == Err(NoMatch)
  {
    var s := Users();
    UsersIds();
    FirstMatchOnCollection(s, JStr("2"), 0);
    FirstMatchOnCollection(s, JNum(7.0), 0);
  }

  const Folder: Path := ["exampleFolder"]
  const DataFile: Path := ["exampleFolder", "example3.json"]

  /** `createFolder` of the example, from an empty working directory. */
  lemma ExampleCreateFolder()
    ensures CreateFolder(map[[] := Dir], Folder) == Ok(map[[] := Dir, Folder := Dir])
  {
    var fs0: FS := map[[] := Dir];
    assert Ancestry(Folder) == {[], Folder} by {
      assert Folder[..0] == [] && Folder[..1] == Folder;
    }
    assert !BlockedByFile(fs0, Folder);
    var m := MkdirAll(fs0, Folder);
    assert m.Keys == {[], Folder};
    assert m == map[[] := Dir, Folder := Dir];
  }

  const NewFolder: Path := ["newExampleFolder"]
  const NewDataFile: Path := ["newExampleFolder", "example3.json"]

  /** The example folder renamed, holding the file. */
  function RenamedWithFile(records: seq<Value>): FS
  {
    map[[] := Dir, NewFolder := Dir, NewDataFile := File(Json(JArr(records)))]
  }

  /** `updateFolderName` of the example, right after the folder was created:
      the folder moves to `newExampleFolder`. */
  lemma ExampleRename()
    ensures UpdateFolderName(map[[] := Dir, Folder := Dir], Folder, "newExampleFolder")
            == Ok((map[[] := Dir, NewFolder := Dir], NewFolder))
  {
    var fs1: FS := map[[] := Dir, Folder := Dir];
    assert NewFolderPath(Folder, "newExampleFolder") == NewFolder;
    assert Kept(fs1, Folder) == {[]};
    assert Carried(fs1, Folder, NewFolder) == {NewFolder} by {
      assert Rebase(Folder, NewFolder, Folder) == NewFolder;
    }
    var m := Move(fs1, Folder, NewFolder);
    assert m.Keys == {[], NewFolder};
    assert m == map[[] := Dir, NewFolder := Dir];
  }

  /** `readFolderContents` of the renamed folder lists nothing. */
  lemma ExampleListing()
    ensures ReadFolderContents(map[[] := Dir, NewFolder := Dir], NewFolder) == Ok(map[])
  {
    var fs2: FS := map[[] := Dir, NewFolder := Dir];
    assert ChildNames(fs2, NewFolder) == {} by {
      forall q | q in fs2 && q != [] ensures Dirname(q) != NewFolder {
        assert q == NewFolder;
      }
    }
  }

  /** `createJSONFile` in the renamed folder. */
  lemma ExampleCreateFileRenamed()
    ensures CreateJSONFile(map[[] := Dir, NewFolder := Dir], NewFolder, "example3.json", JArr(Users()))
            == Ok(RenamedWithFile(Users()))
  {
    assert Join(NewFolder, "example3.json") == NewDataFile;
  }

  /** Rewriting the file in the renamed folder. */
  lemma RewriteRenamedWithFile(before: seq<Value>, after: seq<Value>)
    ensures ReadJSONFile(RenamedWithFile(before), NewDataFile) == Ok(JArr(before))
    ensures RenamedWithFile(before)[NewDataFile := File(Json(JArr(after)))] == RenamedWithFile(after)
  {
  }

  /** The example script as written, its steps taken in program order, each
      complete before the next, from an empty working directory. The folder
      is created and then renamed; `updateFolderName` returns nothing, so the
      listing is skipped. The file is then created in the old folder, which no
      longer exists, and so are the update and the delete: all three report
      not-found, and only the renamed, empty folder is left. */
  method ExampleRunAsWritten() returns (created: Result<FS>, updated: Result<FS>, deleted: Result<FS>, final: FS)
    ensures created == Err(NotFound) && updated == Err(NotFound) && deleted == Err(NotFound)
    ensures final == map[[] := Dir, NewFolder := Dir]
  {
    ExampleCreateFolder();
    ExampleRename();
    var fs1 := CreateFolder(map[[] := Dir], Folder).value;
    var fs2 := UpdateFolderName(fs1, Folder, "newExampleFolder").value.0;
    assert Join(Folder, "example3.json") == DataFile;
    created := CreateJSONFile(fs2, Folder, "example3.json", JArr(Users()));
    updated := UpdateJSONData(fs2, DataFile, JNum(2.0), RenameToAbc());
    deleted := DeleteJSONRecord(fs2, DataFile, JNum(3.0));
    final := fs2;
  }

  /** The example script with its record steps in the folder as renamed,
      `updatedFolderPath`: create the folder, rename it, list it (empty),
      create the file, update id 2, delete id 3. The renamed folder is left
      holding the five expected records. */
  method ExampleRun() returns (listing: Result<map<Segment, Kind>>, r: Result<FS>)
    ensures listing == Ok(map[])
    ensures r == Ok(RenamedWithFile([Users()[0], AbcUser(), Users()[3], Users()[4], Users()[5]]))
  {
    ExampleCreateFolder();
    ExampleRename();
    var fs1 := CreateFolder(map[[] := Dir], Folder).value;
    var renamed := UpdateFolderName(fs1, Folder, "newExampleFolder").value;
    var fs2, updatedFolderPath := renamed.0, renamed.1;
    ExampleListing();
    listing := ReadFolderContents(fs2, updatedFolderPath);
    ExampleCreateFileRenamed();
    var fs3 := CreateJSONFile(fs2, updatedFolderPath, "example3.json", JArr(Users())).value;
    RewriteRenamedWithFile(Users(), Users()[1 := AbcUser()]);
    ExampleUpdate();
    var updated := UpdateJSONData(fs3, NewDataFile, JNum(2.0), RenameToAbc());
    var fs4 := updated.value;
    RewriteRenamedWithFile(Users()[1 := AbcUser()], [Users()[0], AbcUser(), Users()[3], Users()[4], Users()[5]]);
    ExampleUpdateThenDelete();
    r := DeleteJSONRecord(fs4, NewDataFile, JNum(3.0));
  }
}
