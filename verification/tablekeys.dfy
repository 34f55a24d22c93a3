/** The table-key helpers: a table key such as `dukes_1_2_3` names table
    `1.2.3` of collection `dukes`, which sits in chapter `chapter_1`; the
    ETL configuration lists, per collection, the table keys of each
    chapter. */
module TableKeys {
  import opened Results
  import opened Strings

  /** `table_key.replace(data_collection, "")[1:].replace("_", ".")`. */
  function TableKeyToName(key: string, collection: string): (r: string)
    ensures '_' !in r
  {
    ReplaceChar(Tail(RemoveAll(key, collection)), '_', '.')
  }

  /** The key under which a table name is filed. */
  function NameToTableKey(name: string, collection: string): string
  {
    collection + "_" + ReplaceChar(name, '.', '_')
  }

  /** Removing the collection name from `collection + rest` leaves `rest`
      when `rest` does not mention the collection. */
  lemma RemoveLeading(collection: string, rest: string)
    requires |collection| > 0 && !Contains(rest, collection)
    ensures RemoveAll(collection + rest, collection) == rest
  {
    var s := collection + rest;
    assert collection <= s;
    assert s[|collection|..] == rest;
    ReplaceAllAbsent(rest, collection, "");
  }

  /** `dc + "_" + n` reads back as `n` with underscores turned into dots. */
  lemma {:induction false} KeyToName(collection: string, n: string)
    requires |collection| > 0 && !Contains("_" + n, collection)
    ensures TableKeyToName(collection + "_" + n, collection) == ReplaceChar(n, '_', '.')
  {
    assert collection + "_" + n == collection + ("_" + n);
    RemoveLeading(collection, "_" + n);
    assert Tail("_" + n) == n;
  }

  /** A dotted name without underscores survives the trip to a key and
      back, as long as its key part does not repeat the collection name. */
  lemma {:induction false} NameKeyRoundTrip(name: string, collection: string)
    requires |collection| > 0 && '_' !in name
    requires !Contains("_" + ReplaceChar(name, '.', '_'), collection)
    ensures TableKeyToName(NameToTableKey(name, collection), collection) == name
  {
    var n := ReplaceChar(name, '.', '_');
    KeyToName(collection, n);
    var r := ReplaceChar(n, '_', '.');
    assert forall i :: 0 <= i < |name| ==> r[i] == name[i];
  }

  /** The documented example: `dukes_1_2_3` names table `1.2.3`. */
  lemma KeyToNameExample(key: string, collection: string)
    requires key == "dukes_1_2_3" && collection == "dukes"
    ensures TableKeyToName(key, collection) == "1.2.3"
  {
    var n := "1_2_3";
    NotContainsFirst("_" + n, collection);
    KeyToName(collection, n);
    assert collection + "_" + n == key;
    var r := ReplaceChar(n, '_', '.');
    assert r[0] == '1' && r[1] == '.' && r[2] == '2' && r[3] == '.' && r[4] == '3';
  }

  /** `table_number[0]` of an empty string raises `IndexError`; a leading
      character with no chapter rule hits `raise NotImplemented(...)`,
      which raises `TypeError`. */
  datatype ChapterError = EmptyTableNumber | NoChapterRule(first: char)

  predicate IsDigit(c: char)
  {
    '0' <= c <= '9'
  }

  /** The table number as `table_to_chapter` inspects it: a key mentioning
      the collection is turned into an upper-cased dotted name, anything
      else is taken as is. */
  function NormalizeTableNumber(t: string, collection: string): string
  {
    if Contains(t, collection) then Upper(ReplaceChar(Tail(RemoveAll(t, collection)), '_', '.')) else t
  }

  /** `table_to_chapter(table_number, data_collection)`. */
  function TableToChapter(t: string, collection: string): (r: Result<string, ChapterError>)
    ensures var n := NormalizeTableNumber(t, collection);
            && (r == Err(EmptyTableNumber) <==> |n| == 0)
            && (r.Ok? <==> |n| > 0 && (IsDigit(n[0]) || n[0] == 'I' || n[0] == 'J'))
            && (r.Ok? && IsDigit(n[0]) ==> r.value == "chapter_" + [n[0]])
            && (r.Ok? && !IsDigit(n[0]) ==> r.value == "chapter_1")
            && (r.Err? && |n| > 0 ==> r.error == NoChapterRule(n[0]))
  {
    var n := NormalizeTableNumber(t, collection);
    if |n| == 0 then Err(EmptyTableNumber)
    else if IsDigit(n[0]) then Ok("chapter_" + [n[0]])
    else if n[0] == 'I' || n[0] == 'J' then Ok("chapter_1")
    else Err(NoChapterRule(n[0]))
  }

  /** Only the first character of the normalised number matters. */
  lemma ChapterFirstCharOnly(t1: string, t2: string, collection: string)
    requires |NormalizeTableNumber(t1, collection)| > 0 && |NormalizeTableNumber(t2, collection)| > 0
    requires NormalizeTableNumber(t1, collection)[0] == NormalizeTableNumber(t2, collection)[0]
    ensures TableToChapter(t1, collection) == TableToChapter(t2, collection)
  {
  }

  /** A key `dc_1_2` and its dotted name `1.2` land in the same chapter. */
  lemma {:induction false} KeyAndNameSameChapter(collection: string, n: string)
    requires |collection| > 0 && !Contains("_" + n, collection)
    requires |n| > 0 && IsDigit(n[0])
    requires !Contains(ReplaceChar(n, '_', '.'), collection)
    ensures TableToChapter(collection + "_" + n, collection) == TableToChapter(ReplaceChar(n, '_', '.'), collection)
    ensures TableToChapter(collection + "_" + n, collection) == Ok("chapter_" + [n[0]])
  {
    var key := collection + "_" + n;
    assert Contains(key, collection) by {
      assert collection <= key;
    }
    KeyToName(collection, n);
    var name := ReplaceChar(n, '_', '.');
    assert NormalizeTableNumber(key, collection) == Upper(name);
    assert Upper(name)[0] == n[0];
  }

  /** Per collection, per chapter, the table keys configured. */
  type EtlConfig = map<string, map<string, set<string>>>

  datatype CheckError = CollectionNotFound(collection: string) | TableNotFound(key: string)

  /** `check_inputs(data_collection, table_key, etl_config)` as written:
      the loop raises as soon as one chapter lacks the key, so a key is
      accepted only if every chapter lists it. */
  function CheckInputsAsWritten(collection: string, key: string, config: EtlConfig): (r: Result<bool, CheckError>)
    ensures r.Ok? ==> r.value
    ensures r == Err(CollectionNotFound(collection)) <==> collection !in config
    ensures r.Ok? <==> collection in config && forall ch :: ch in config[collection] ==> key in config[collection][ch]
  {
    if collection !in config then Err(CollectionNotFound(collection))
    else if forall ch :: ch in config[collection] ==> key in config[collection][ch] then Ok(true)
    else Err(TableNotFound(key))
  }

  /** A key listed in its own chapter only is rejected, as soon as the
      collection has a second chapter. */
  lemma CheckInputsAsWrittenRejectsListedKey()
    ensures var config := map["dukes" := map["chapter_1" := {"dukes_1_1"}, "chapter_2" := {"dukes_2_1"}]];
            && "dukes_1_1" in config["dukes"]["chapter_1"]
            && CheckInputsAsWritten("dukes", "dukes_1_1", config) == Err(TableNotFound("dukes_1_1"))
  {
    var config := map["dukes" := map["chapter_1" := {"dukes_1_1"}, "chapter_2" := {"dukes_2_1"}]];
    assert "dukes_1_1" !in config["dukes"]["chapter_2"];
  }

  /** The check as documented: the collection is configured and some
      chapter lists the key. */
  function CheckInputs(collection: string, key: string, config: EtlConfig): (r: Result<bool, CheckError>)
    ensures r.Ok? ==> r.value
    ensures r == Err(CollectionNotFound(collection)) <==> collection !in config
    ensures r.Ok? <==> collection in config && exists ch :: ch in config[collection] && key in config[collection][ch]
    ensures r.Err? && collection in config ==> r.error == TableNotFound(key)
  {
    if collection !in config then Err(CollectionNotFound(collection))
    else if exists ch :: ch in config[collection] && key in config[collection][ch] then Ok(true)
    else Err(TableNotFound(key))
  }

  /** The set of keys a collection configures, over all chapters. */
  function ConfiguredKeys(chapters: map<string, set<string>>): (r: set<string>)
    ensures forall k :: k in r <==> exists ch :: ch in chapters && k in chapters[ch]
  {
    set ch, k | ch in chapters && k in chapters[ch] :: k
  }

  /** The corrected check accepts exactly the configured keys, and it
      accepts everything the written check accepts in a collection with
      at least one chapter; on a single-chapter collection the two agree. */
  lemma CheckInputsAgainstAsWritten(collection: string, key: string, config: EtlConfig)
    ensures CheckInputs(collection, key, config).Ok? <==>
              collection in config && key in ConfiguredKeys(config[collection])
    ensures collection in config && |config[collection]| > 0 && CheckInputsAsWritten(collection, key, config).Ok? ==>
              CheckInputs(collection, key, config).Ok?
    ensures collection in config && |config[collection]| == 1 ==>
              CheckInputs(collection, key, config) == CheckInputsAsWritten(collection, key, config)
  {
    if collection in config && |config[collection]| > 0 {
      var chs := config[collection].Keys;
      assert |chs| > 0;
      var ch :| ch in chs;
      if |config[collection]| == 1 {
        var rest := chs - {ch};
        assert |rest| == 0;
        assert rest == {};
        assert chs == {ch};
      }
    }
  }
}
