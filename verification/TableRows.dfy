/**
  The files of a Delta table and the rows they hold: a commit as its file actions, and the live
  files as a fold over commits (sections "Add File and Remove File" and "Action Reconciliation"
  of the Delta Transaction Log Protocol).
*/
module TableRows {
  datatype Row = Row(id: int)

  /** One line of a commit; Garbage does not parse. */
  datatype Action = Add(path: string, rows: multiset<Row>) | Remove(path: string) | Other | Garbage

  type Commit = seq<Action>

  type Files = map<string, multiset<Row>>

  function Removed(c: Commit): set<string> {
    set a | a in c && a.Remove? :: a.path
  }

  function Added(c: Commit): Files {
    if |c| == 0 then map[]
    else
      var before := Added(c[..|c| - 1]);
      match c[|c| - 1]
      case Add(path, rows) => before[path := rows]
      case _ => before
  }

  function Applied(files: Files, c: Commit): Files {
    (files - Removed(c)) + Added(c)
  }

  /** The live files after every commit of the log. */
  function Live(log: seq<Commit>): Files {
    if |log| == 0 then map[] else Applied(Live(log[..|log| - 1]), log[|log| - 1])
  }

  /** Every row the files hold, as often as it is stored. */
  ghost function RowsOf(files: Files): multiset<Row> {
    if files == map[] then multiset{}
    else
      var path :| path in files;
      files[path] + RowsOf(files - {path})
  }

  lemma {:induction false} RowsOfOneMore(files: Files, path: string)
    requires path in files
    ensures RowsOf(files) == files[path] + RowsOf(files - {path})
    decreases |files|
  {
    var first :| path in files && first in files && RowsOf(files) == files[first] + RowsOf(files - {first});
    if first != path {
      var rest := files - {first};
      RowsOfOneMore(rest, path);
      assert rest - {path} == (files - {path}) - {first};
      RowsOfOneMore(files - {path}, first);
    }
  }

  lemma Regroup(a: multiset<Row>, b: multiset<Row>, c: multiset<Row>)
    ensures a + (b + c) == (a + b) + c
  {
  }

  lemma WithoutOne(a: Files, b: Files, path: string)
    requires a.Keys !! b.Keys && path in a
    ensures path in a + b && (a + b)[path] == a[path] && (a + b) - {path} == (a - {path}) + b
    ensures |a - {path}| < |a| && (a - {path}).Keys !! b.Keys
  {
    var less := a - {path};
    assert less.Keys == a.Keys - {path};
    assert |less.Keys| < |a.Keys|;
    assert path !in b;
  }

  lemma {:induction false} RowsOfBoth(a: Files, b: Files)
    requires a.Keys !! b.Keys
    ensures RowsOf(a + b) == RowsOf(a) + RowsOf(b)
    decreases |a|
  {
    if a == map[] {
      assert a + b == b;
    } else {
      var path :| path in a;
      var less := a - {path};
      WithoutOne(a, b, path);
      RowsOfBoth(less, b);
      RowsOfOneMore(a, path);
      RowsOfOneMore(a + b, path);
      Regroup(a[path], RowsOf(less), RowsOf(b));
    }
  }

  function Only(files: Files, paths: set<string>): Files {
    map path | path in files && path in paths :: files[path]
  }

  lemma RowsOfSplit(files: Files, paths: set<string>)
    ensures RowsOf(files) == RowsOf(Only(files, paths)) + RowsOf(files - paths)
  {
    assert Only(files, paths) + (files - paths) == files;
    RowsOfBoth(Only(files, paths), files - paths);
  }

  /** The paths a commit file removes, line by line; a line that does not parse removes nothing. */
  method RemovedPaths(c: Commit) returns (out: set<string>)
    ensures out == Removed(c)
  {
    out := {};
    for i := 0 to |c|
      invariant out == Removed(c[..i])
    {
      assert c[..i + 1] == c[..i] + [c[i]];
      match c[i] {
        case Remove(path) => out := out + {path};
        case _ =>
      }
    }
    assert c[..|c|] == c;
  }
}
