/**
 * Reading every table out of a ZIP archive.
 *
 * The archive is given as the sequence of its entries in central-directory
 * order (what `zipfile.ZipFile(...).infolist()` enumerates). Opening an entry
 * and handing it to the auto-detecting table loader is one call to an
 * arbitrary `Dispatcher`, which either yields the entry's tables, reports that
 * it does not recognize the content (a `ValueError`), or fails in any other
 * way (an exception that is not caught here).
 */
module Zip {
  import opened Wrappers
  import opened Text

  /** One member of the archive: its name inside the archive and its content. */
  datatype Entry<C> = Entry(filename: string, content: C)

  /** The three ways loading tables from one entry can end. Opening the entry,
      running the loader and reading the returned set's `tables` are all part
      of one dispatch. Only the first two run inside the `try`, so the
      dispatcher must report a ValueError raised while reading `tables` as
      `Fatal`. A ValueError subclass (UnicodeDecodeError, say) raised by the
      opening or the loader is `Unrecognized`. */
  datatype Dispatched<T> =
    | Parsed(tables: seq<T>)          // the loader's table set, as its `tables` lists them
    | Unrecognized(message: string)   // ValueError(message), or a subclass, from opening or loading
    | Fatal(fault: string)            // any other exception, described by `fault`

  /** The table loader applied to an entry and its extension hint. */
  type Dispatcher<!C, T> = (Entry<C>, Option<string>) -> Dispatched<T>

  // ---------------------------------------------------------------------
  // Extension inference
  // ---------------------------------------------------------------------

  /** The extension hint for an entry: None when the name has no '.', and
      otherwise everything after the last '.' of the whole name (directory
      part included). */
  function Extension(filename: string): (ext: Option<string>)
    ensures ext.None? <==> '.' !in filename
    ensures ext.Some? ==>
              && '.' !in ext.value
              && |ext.value| < |filename|
              && filename == filename[..|filename| - |ext.value| - 1] + "." + ext.value
  {
    if '.' in filename then
      var i := LastIndexOf(filename, '.').value;
      assert filename == filename[..i] + "." + filename[i + 1..];
      Some(filename[i + 1..])
    else
      None
  }

  /** The suffix after a '.' that is followed by no other '.' is the extension,
      whatever the part before it holds. */
  lemma ExtensionOfSplit(prefix: string, suffix: string)
    requires '.' !in suffix
    ensures Extension(prefix + "." + suffix) == Some(suffix)
  {
    var name := prefix + "." + suffix;
    assert name[|prefix|] == '.';
    var i := LastIndexOf(name, '.').value;
  }

  /** A name ending in '.' has the empty extension, which is not the absent one. */
  lemma ExtensionOfTrailingDot(filename: string)
    requires |filename| > 0 && filename[|filename| - 1] == '.'
    ensures Extension(filename) == Some("")
    ensures Extension(filename) != None
  {
  }

  /** The last '.' decides, even when it sits in a directory name. */
  lemma ExtensionOfDirectoryDot()
    ensures Extension("dir.v1/README") == Some("v1/README")
    ensures Extension("README") == None
  {
  }

  /** Only what follows the last '.' of a multi-dotted name is the extension. */
  lemma ExtensionOfDoubleSuffix()
    ensures Extension("archive.tar.gz") == Some("gz")
  {
  }

  // ---------------------------------------------------------------------
  // Per-entry aggregation
  // ---------------------------------------------------------------------

  /** How one entry is loaded: the dispatcher, given the inferred extension. */
  function Outcome<C, T>(e: Entry<C>, dispatch: Dispatcher<C, T>): Dispatched<T>
  {
    dispatch(e, Extension(e.filename))
  }

  /** The text recorded for an entry the loader did not recognize. */
  function Record(filename: string, message: string): string
  {
    filename + ": " + message
  }

  /** The state of the loop over the entries: the tables and failure records
      gathered so far, or the fault that ended it. */
  datatype Accumulated<T> =
    | Accumulated(tables: seq<T>, found: seq<string>)
    | Aborted(fault: string)

  /** One iteration of the loop, on one entry. */
  function Step<C, T>(acc: Accumulated<T>, e: Entry<C>, dispatch: Dispatcher<C, T>): Accumulated<T>
  {
    match acc
    case Aborted(_) => acc
    case Accumulated(tables, found) =>
      match Outcome(e, dispatch)
      case Parsed(ts) => Accumulated(tables + ts, found)
      case Unrecognized(m) => Accumulated(tables, found + [Record(e.filename, m)])
      case Fatal(f) => Aborted(f)
  }

  /** The loop's state after the given entries, in order. */
  function Run<C, T>(entries: seq<Entry<C>>, dispatch: Dispatcher<C, T>): Accumulated<T>
    decreases |entries|
  {
    if |entries| == 0 then Accumulated([], [])
    else Step(Run(entries[..|entries| - 1], dispatch), entries[|entries| - 1], dispatch)
  }

  // Reference definitions, entry by entry and independent of the loop.

  /** No entry's load fails with an uncaught exception. */
  ghost predicate NoFatal<C, T>(entries: seq<Entry<C>>, dispatch: Dispatcher<C, T>)
  {
    forall i :: 0 <= i < |entries| ==> !Outcome(entries[i], dispatch).Fatal?
  }

  /** The tables one entry contributes: its own when loaded, none otherwise. */
  function TablesOf<C, T>(e: Entry<C>, dispatch: Dispatcher<C, T>): seq<T>
  {
    match Outcome(e, dispatch)
    case Parsed(ts) => ts
    case _ => []
  }

  /** The failure records one entry contributes: one when unrecognized, none otherwise. */
  function RecordsOf<C, T>(e: Entry<C>, dispatch: Dispatcher<C, T>): seq<string>
  {
    match Outcome(e, dispatch)
    case Unrecognized(m) => [Record(e.filename, m)]
    case _ => []
  }

  /** Every entry's tables, concatenated in entry order. */
  function ParsedTables<C, T>(entries: seq<Entry<C>>, dispatch: Dispatcher<C, T>): seq<T>
  {
    if |entries| == 0 then [] else TablesOf(entries[0], dispatch) + ParsedTables(entries[1..], dispatch)
  }

  /** Every entry's failure records, in entry order. */
  function Records<C, T>(entries: seq<Entry<C>>, dispatch: Dispatcher<C, T>): seq<string>
  {
    if |entries| == 0 then [] else RecordsOf(entries[0], dispatch) + Records(entries[1..], dispatch)
  }

  /** How many entries the loader loaded (with or without tables). */
  function Successes<C, T>(entries: seq<Entry<C>>, dispatch: Dispatcher<C, T>): nat
  {
    if |entries| == 0 then 0
    else (if Outcome(entries[0], dispatch).Parsed? then 1 else 0) + Successes(entries[1..], dispatch)
  }

  lemma {:induction false} ParsedTablesAppend<C, T>(a: seq<Entry<C>>, b: seq<Entry<C>>, dispatch: Dispatcher<C, T>)
    ensures ParsedTables(a + b, dispatch) == ParsedTables(a, dispatch) + ParsedTables(b, dispatch)
  {
    if |a| == 0 {
      assert a + b == b;
    } else {
      assert (a + b)[1..] == a[1..] + b;
      ParsedTablesAppend(a[1..], b, dispatch);
    }
  }

  lemma {:induction false} RecordsAppend<C, T>(a: seq<Entry<C>>, b: seq<Entry<C>>, dispatch: Dispatcher<C, T>)
    ensures Records(a + b, dispatch) == Records(a, dispatch) + Records(b, dispatch)
  {
    if |a| == 0 {
      assert a + b == b;
    } else {
      assert (a + b)[1..] == a[1..] + b;
      RecordsAppend(a[1..], b, dispatch);
    }
  }

  /** The loop finishes exactly when no load is fatal, and then it has gathered
      every entry's tables and every entry's failure record, in entry order. */
  lemma {:induction false} RunMeaning<C, T>(entries: seq<Entry<C>>, dispatch: Dispatcher<C, T>)
    ensures Run(entries, dispatch).Accumulated? <==> NoFatal(entries, dispatch)
    ensures NoFatal(entries, dispatch) ==>
              Run(entries, dispatch) == Accumulated(ParsedTables(entries, dispatch), Records(entries, dispatch))
    decreases |entries|
  {
    if |entries| > 0 {
      var n := |entries| - 1;
      var init, e := entries[..n], entries[n];
      assert entries == init + [e];
      RunMeaning(init, dispatch);
      ParsedTablesAppend(init, [e], dispatch);
      RecordsAppend(init, [e], dispatch);
      assert [e][1..] == [];
      assert NoFatal(entries, dispatch) <==> NoFatal(init, dispatch) && !Outcome(e, dispatch).Fatal? by {
        if NoFatal(init, dispatch) && !Outcome(e, dispatch).Fatal? {
          forall i | 0 <= i < |entries| ensures !Outcome(entries[i], dispatch).Fatal? {
            if i < n { assert entries[i] == init[i]; }
          }
        }
        if NoFatal(entries, dispatch) {
          assert !Outcome(entries[n], dispatch).Fatal?;
          forall i | 0 <= i < |init| ensures !Outcome(init[i], dispatch).Fatal? {
            assert init[i] == entries[i];
          }
        }
      }
    }
  }

  /** When a load is fatal, the loop stops at the first such entry and its
      fault is the one that propagates: later entries do not matter. */
  lemma {:induction false} RunAbortsAtFirstFatal<C, T>(entries: seq<Entry<C>>, dispatch: Dispatcher<C, T>, i: nat)
    requires i < |entries|
    requires NoFatal(entries[..i], dispatch)
    requires Outcome(entries[i], dispatch).Fatal?
    ensures Run(entries, dispatch) == Aborted(Outcome(entries[i], dispatch).fault)
    decreases |entries|
  {
    var n := |entries| - 1;
    var init := entries[..n];
    if i == n {
      RunMeaning(init, dispatch);
    } else {
      assert init[..i] == entries[..i];
      assert init[i] == entries[i];
      RunAbortsAtFirstFatal(init, dispatch, i);
    }
  }

  /** Conversely, a loop that aborted did so with the fault of its first
      fatal entry. */
  lemma {:induction false} AbortedAtFirstFatal<C, T>(entries: seq<Entry<C>>, dispatch: Dispatcher<C, T>)
    requires Run(entries, dispatch).Aborted?
    ensures exists i :: 0 <= i < |entries| && NoFatal(entries[..i], dispatch) &&
                        Outcome(entries[i], dispatch) == Fatal(Run(entries, dispatch).fault)
    decreases |entries|
  {
    var n := |entries| - 1;
    var init := entries[..n];
    if Run(init, dispatch).Aborted? {
      AbortedAtFirstFatal(init, dispatch);
      var i :| 0 <= i < |init| && NoFatal(init[..i], dispatch) &&
               Outcome(init[i], dispatch) == Fatal(Run(init, dispatch).fault);
      assert init[..i] == entries[..i];
      assert init[i] == entries[i];
    } else {
      RunMeaning(init, dispatch);
      assert NoFatal(entries[..n], dispatch);
    }
  }

  /** If no load is fatal, the loop finishes and every entry either loaded or
      left exactly one failure record. */
  lemma {:induction false} EveryEntryAccounted<C, T>(entries: seq<Entry<C>>, dispatch: Dispatcher<C, T>)
    requires NoFatal(entries, dispatch)
    ensures Run(entries, dispatch).Accumulated?
    ensures |Run(entries, dispatch).found| + Successes(entries, dispatch) == |entries|
  {
    RunMeaning(entries, dispatch);
    RecordsAccounted(entries, dispatch);
  }

  lemma {:induction false} RecordsAccounted<C, T>(entries: seq<Entry<C>>, dispatch: Dispatcher<C, T>)
    requires NoFatal(entries, dispatch)
    ensures |Records(entries, dispatch)| + Successes(entries, dispatch) == |entries|
  {
    if |entries| > 0 {
      assert !Outcome(entries[0], dispatch).Fatal?;
      assert NoFatal(entries[1..], dispatch) by {
        forall i | 0 <= i < |entries[1..]| ensures !Outcome(entries[1..][i], dispatch).Fatal? {
          assert entries[1..][i] == entries[i + 1];
        }
      }
      RecordsAccounted(entries[1..], dispatch);
    }
  }

  /** A loaded entry's tables stand, contiguous and in their own order, right
      after the tables of the entries before it. */
  lemma EntryTablesInOrder<C, T>(entries: seq<Entry<C>>, dispatch: Dispatcher<C, T>, i: nat)
    requires i < |entries|
    requires Outcome(entries[i], dispatch).Parsed?
    ensures var k, ts := |ParsedTables(entries[..i], dispatch)|, Outcome(entries[i], dispatch).tables;
            k + |ts| <= |ParsedTables(entries, dispatch)| && ParsedTables(entries, dispatch)[k..k + |ts|] == ts
  {
    var before, e, after := entries[..i], entries[i], entries[i + 1..];
    assert entries == before + ([e] + after);
    ParsedTablesAppend(before, [e] + after, dispatch);
    assert ([e] + after)[1..] == after;
  }

  /** An unrecognized entry's record stands right after the records of the
      entries before it. */
  lemma EntryRecordInOrder<C, T>(entries: seq<Entry<C>>, dispatch: Dispatcher<C, T>, i: nat)
    requires i < |entries|
    requires Outcome(entries[i], dispatch).Unrecognized?
    ensures var k := |Records(entries[..i], dispatch)|;
            k < |Records(entries, dispatch)| &&
            Records(entries, dispatch)[k] == Record(entries[i].filename, Outcome(entries[i], dispatch).message)
  {
    var before, e, after := entries[..i], entries[i], entries[i + 1..];
    assert entries == before + ([e] + after);
    RecordsAppend(before, [e] + after, dispatch);
    assert ([e] + after)[1..] == after;
  }

  /** No tables are gathered exactly when every entry contributes none. */
  lemma {:induction false} NoTablesIff<C, T>(entries: seq<Entry<C>>, dispatch: Dispatcher<C, T>)
    ensures |ParsedTables(entries, dispatch)| == 0 <==>
            forall i :: 0 <= i < |entries| ==> |TablesOf(entries[i], dispatch)| == 0
  {
    if |entries| > 0 {
      NoTablesIff(entries[1..], dispatch);
      if forall i :: 0 <= i < |entries| ==> |TablesOf(entries[i], dispatch)| == 0 {
        forall i | 0 <= i < |entries[1..]| ensures |TablesOf(entries[1..][i], dispatch)| == 0 {
          assert entries[1..][i] == entries[i + 1];
        }
      }
      if |ParsedTables(entries, dispatch)| == 0 {
        forall i | 0 <= i < |entries| ensures |TablesOf(entries[i], dispatch)| == 0 {
          if i > 0 { assert entries[1..][i - 1] == entries[i]; }
        }
      }
    }
  }

  /** When no entry is recognized, no tables are gathered and each entry has
      its record, at its own position. */
  lemma {:induction false} AllUnrecognized<C, T>(entries: seq<Entry<C>>, dispatch: Dispatcher<C, T>)
    requires forall i :: 0 <= i < |entries| ==> Outcome(entries[i], dispatch).Unrecognized?
    ensures ParsedTables(entries, dispatch) == []
    ensures |Records(entries, dispatch)| == |entries|
    ensures forall i :: 0 <= i < |entries| ==>
              Records(entries, dispatch)[i] == Record(entries[i].filename, Outcome(entries[i], dispatch).message)
  {
    if |entries| > 0 {
      forall i | 0 <= i < |entries[1..]| ensures Outcome(entries[1..][i], dispatch).Unrecognized? {
        assert entries[1..][i] == entries[i + 1];
      }
      AllUnrecognized(entries[1..], dispatch);
      assert !Outcome(entries[0], dispatch).Parsed?;
      forall i | 0 <= i < |entries|
        ensures Records(entries, dispatch)[i] == Record(entries[i].filename, Outcome(entries[i], dispatch).message)
      {
        if i > 0 { assert entries[1..][i - 1] == entries[i]; }
      }
    }
  }

  /** The message of the ValueError raised when no table was found. */
  function NoTablesMessage(found: seq<string>): string
  {
    "ZIP file has no recognized tables (" + Join(", ", found) + ")."
  }

  /** The message names every failure record. */
  lemma NoTablesMessageLists(found: seq<string>, i: nat)
    requires i < |found|
    ensures Occurs(found[i], NoTablesMessage(found))
  {
    JoinContains(", ", found, i);
    OccursInContext(found[i], Join(", ", found), "ZIP file has no recognized tables (", ").");
  }

  /** When the loop finishes without tables, the error names every
      unrecognized entry together with the loader's reason. */
  lemma NoTablesErrorNamesEachFailure<C, T>(entries: seq<Entry<C>>, dispatch: Dispatcher<C, T>, i: nat)
    requires i < |entries|
    requires Outcome(entries[i], dispatch).Unrecognized?
    ensures Occurs(Record(entries[i].filename, Outcome(entries[i], dispatch).message),
                   NoTablesMessage(Records(entries, dispatch)))
  {
    EntryRecordInOrder(entries, dispatch, i);
    NoTablesMessageLists(Records(entries, dispatch), |Records(entries[..i], dispatch)|);
  }

  /** An archive without entries gathers nothing and reports an empty list. */
  lemma EmptyArchive<C, T>(dispatch: Dispatcher<C, T>)
    ensures Run([], dispatch) == Accumulated([], [])
    ensures NoTablesMessage([]) == "ZIP file has no recognized tables ()."
  {
  }

  /** The loop over the archive's entries: each entry is given its extension
      hint and loaded; its tables are appended, or its failure is recorded and
      the loop goes on, or its fault ends the whole loop. */
  method CollectTables<C, T>(entries: seq<Entry<C>>, dispatch: Dispatcher<C, T>) returns (acc: Accumulated<T>)
    ensures acc == Run(entries, dispatch)
    ensures acc.Accumulated? <==> NoFatal(entries, dispatch)
    ensures acc.Accumulated? ==>
              acc.tables == ParsedTables(entries, dispatch) && acc.found == Records(entries, dispatch)
  {
    var tables: seq<T> := [];
    var found: seq<string> := [];
    for i := 0 to |entries|
      invariant Run(entries[..i], dispatch) == Accumulated(tables, found)
    {
      var f := entries[i];
      var ext := Extension(f.filename);
      assert entries[..i + 1][..i] == entries[..i];
      match dispatch(f, ext)
      case Unrecognized(message) =>
        found := found + [Record(f.filename, message)];
      case Fatal(fault) =>
        acc := Aborted(fault);
        RunAfterAbort(entries, dispatch, i + 1);
        RunMeaning(entries, dispatch);
        return;
      case Parsed(filetables) =>
        tables := tables + filetables;
    }
    assert entries[..|entries|] == entries;
    acc := Accumulated(tables, found);
    RunMeaning(entries, dispatch);
  }

  /** Once the loop has aborted, further entries leave it aborted with the same fault. */
  lemma {:induction false} RunAfterAbort<C, T>(entries: seq<Entry<C>>, dispatch: Dispatcher<C, T>, n: nat)
    requires n <= |entries|
    requires Run(entries[..n], dispatch).Aborted?
    ensures Run(entries, dispatch) == Run(entries[..n], dispatch)
    decreases |entries| - n
  {
    if n < |entries| {
      assert entries[..n + 1][..n] == entries[..n];
      RunAfterAbort(entries, dispatch, n + 1);
    } else {
      assert entries[..n] == entries;
    }
  }

  /** What `from_fileobj` ends with: a table set, the ValueError for an archive
      without recognized tables, or the exception of the first fatal entry. */
  datatype Loaded<T> =
    | Success(tableSet: ZipTableSet<T>)
    | ValueError(message: string)
    | Propagated(fault: string)

  /** The tables read from inside a ZIP file. */
  class ZipTableSet<T> {
    var storedTables: seq<T>

    constructor (tables: seq<T>)
      ensures Tables() == tables
    {
      storedTables := tables;
    }

    /** The tables contained in the loadable entries of the archive. */
    function Tables(): seq<T>
      reads this
    {
      storedTables
    }

    /** Loads every entry of the archive and combines their tables; fails when
        no table was found or when some entry fails with an uncaught fault. */
    static method FromFileobj<C>(entries: seq<Entry<C>>, dispatch: Dispatcher<C, T>) returns (r: Loaded<T>)
      ensures r.Propagated? <==> !NoFatal(entries, dispatch)
      ensures r.Propagated? ==> Run(entries, dispatch) == Aborted(r.fault)
      ensures r.Propagated? ==>
                exists i :: 0 <= i < |entries| && NoFatal(entries[..i], dispatch) &&
                            Outcome(entries[i], dispatch) == Fatal(r.fault)
      ensures r.ValueError? <==> NoFatal(entries, dispatch) && ParsedTables(entries, dispatch) == []
      ensures r.ValueError? ==> r.message == NoTablesMessage(Records(entries, dispatch))
      ensures r.Success? ==>
                && fresh(r.tableSet)
                && r.tableSet.Tables() == ParsedTables(entries, dispatch)
                && |r.tableSet.Tables()| > 0
    {
      var acc := CollectTables(entries, dispatch);
      match acc
      case Aborted(fault) =>
        AbortedAtFirstFatal(entries, dispatch);
        r := Propagated(fault);
      case Accumulated(tables, found) =>
        if |tables| == 0 {
          r := ValueError(NoTablesMessage(found));
        } else {
          var z := new ZipTableSet(tables);
          r := Success(z);
        }
    }
  }
}
