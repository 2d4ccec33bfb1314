/**
 * The results database's statement builder (`create_insert_statement`) and
 * its two users, `insert` and `insertmany`.
 *
 * The SQLite connection is modelled as the log of the statements it was
 * asked to run, each with its rows of named values. A row (a Python dict
 * or keyword arguments) is its (key, value) pairs in insertion order.
 */
module Databases {
  import opened Wrappers

  type Row<V> = seq<(string, V)>

  /** The keys of a row, in order. */
  function Keys<V>(row: Row<V>): (keys: seq<string>)
    ensures |keys| == |row| && forall i :: 0 <= i < |row| ==> keys[i] == row[i].0
  {
    seq(|row|, i requires 0 <= i < |row| => row[i].0)
  }

  /** Python's `', '.join(parts)`. */
  function JoinWith(parts: seq<string>): string {
    if |parts| == 0 then ""
    else if |parts| == 1 then parts[0]
    else parts[0] + ", " + JoinWith(parts[1..])
  }

  /** The column names, each in backquotes. */
  function Columns(keys: seq<string>): (cs: seq<string>)
    ensures |cs| == |keys| && forall i :: 0 <= i < |keys| ==> cs[i] == "`" + keys[i] + "`"
  {
    seq(|keys|, i requires 0 <= i < |keys| => "`" + keys[i] + "`")
  }

  /** The named placeholders, a colon before each key. */
  function Placeholders(keys: seq<string>): (ps: seq<string>)
    ensures |ps| == |keys| && forall i :: 0 <= i < |keys| ==> ps[i] == ":" + keys[i]
  {
    seq(|keys|, i requires 0 <= i < |keys| => ":" + keys[i])
  }

  const PREFIX: string := "insert into `"
  const VALUES: string := " values ("

  /**
   * `create_insert_statement(table, keys)`:
   * insert into `table` (`k1`, `k2`) values (:k1, :k2).
   */
  function InsertStatement(table: string, keys: seq<string>): string {
    PREFIX + table + "` (" + JoinWith(Columns(keys)) + ")" + VALUES + JoinWith(Placeholders(keys)) + ")"
  }

  /** The part of `s` before the first `c` and the part after it; None when `c` does not occur. */
  function SplitAt(s: string, c: char): (r: Option<(string, string)>)
    ensures r.None? <==> c !in s
    ensures r.Some? ==> s == r.value.0 + [c] + r.value.1 && c !in r.value.0
  {
    if s == [] then None
    else if s[0] == c then Some(([], s[1..]))
    else match SplitAt(s[1..], c) {
      case None => None
      case Some((a, b)) => Some(([s[0]] + a, b))
    }
  }

  /** Splitting at the first `c` finds the part before it again. */
  lemma {:induction false} SplitAtConcat(a: string, c: char, b: string)
    requires c !in a
    ensures SplitAt(a + [c] + b, c) == Some((a, b))
  {
    var s := a + [c] + b;
    if a == [] {
      assert s[0] == c && s[1..] == b;
    } else {
      assert s[0] == a[0] && s[1..] == a[1..] + [c] + b;
      SplitAtConcat(a[1..], c, b);
      assert [a[0]] + a[1..] == a;
    }
  }

  /** Splits a `', '.join` back into its parts: at each comma, dropping the space after it. */
  function Unjoin(s: string): seq<string>
    decreases |s|
  {
    if s == [] then []
    else match SplitAt(s, ',') {
      case None => [s]
      case Some((a, b)) => [a] + Unjoin(if b == [] then [] else b[1..])
    }
  }

  /** Non-empty parts without commas come back from `', '.join` unchanged and in order. */
  lemma {:induction false} UnjoinJoin(parts: seq<string>)
    requires forall i :: 0 <= i < |parts| ==> parts[i] != [] && ',' !in parts[i]
    ensures Unjoin(JoinWith(parts)) == parts
  {
    if |parts| == 1 {
      assert SplitAt(parts[0], ',').None?;
    } else if |parts| > 1 {
      var rest := JoinWith(parts[1..]);
      UnjoinJoin(parts[1..]);
      assert JoinWith(parts) == parts[0] + [','] + (" " + rest);
      SplitAtConcat(parts[0], ',', " " + rest);
      assert (" " + rest)[1..] == rest;
      assert [parts[0]] + parts[1..] == parts;
    }
  }

  /**
   * Reads an insert statement back: the table, the column list and the
   * placeholder list, split at their commas.
   */
  function ParseInsert(s: string): Option<(string, seq<string>, seq<string>)> {
    if |s| < |PREFIX| || s[..|PREFIX|] != PREFIX then None
    else match SplitAt(s[|PREFIX|..], '`') {
      case None => None
      case Some((table, rest)) => ParseColumns(table, rest)
    }
  }

  /** What follows the table name: ` (`, the column list, `)`. */
  function ParseColumns(table: string, s: string): Option<(string, seq<string>, seq<string>)> {
    if |s| < 2 || s[..2] != " (" then None
    else match SplitAt(s[2..], ')') {
      case None => None
      case Some((columns, rest)) => ParseValues(table, columns, rest)
    }
  }

  /** What follows the column list: ` values (`, the placeholder list, `)` and nothing else. */
  function ParseValues(table: string, columns: string, s: string): Option<(string, seq<string>, seq<string>)> {
    if |s| < |VALUES| || s[..|VALUES|] != VALUES then None
    else match SplitAt(s[|VALUES|..], ')') {
      case None => None
      case Some((placeholders, rest)) =>
        if rest != [] then None else Some((table, Unjoin(columns), Unjoin(placeholders)))
    }
  }

  /** Keys that cannot end a quoted name, a part or a list. */
  predicate PlainName(k: string) {
    '`' !in k && ',' !in k && ')' !in k
  }

  /** No part of the list holds `c` when no key does and the decoration does not. */
  lemma JoinFree(parts: seq<string>, c: char)
    requires c != ',' && c != ' '
    requires forall i :: 0 <= i < |parts| ==> c !in parts[i]
    ensures c !in JoinWith(parts)
    decreases |parts|
  {
    if |parts| > 1 {
      JoinFree(parts[1..], c);
    }
  }

  lemma ColumnsArePlain(keys: seq<string>)
    requires forall i :: 0 <= i < |keys| ==> PlainName(keys[i])
    ensures forall i :: 0 <= i < |keys| ==> Columns(keys)[i] != [] && ',' !in Columns(keys)[i] && ')' !in Columns(keys)[i]
    ensures forall i :: 0 <= i < |keys| ==> Placeholders(keys)[i] != [] && ',' !in Placeholders(keys)[i] && ')' !in Placeholders(keys)[i]
  {
  }

  /** A statement laid out as the prefix, the table and the rest after its closing backquote. */
  function Layout(table: string, columns: string, placeholders: string): string {
    PREFIX + (table + ['`'] + (" (" + columns + [')'] + (VALUES + placeholders + [')'])))
  }

  lemma StatementLayout(table: string, keys: seq<string>)
    ensures InsertStatement(table, keys) == Layout(table, JoinWith(Columns(keys)), JoinWith(Placeholders(keys)))
  {
  }

  lemma ParseValuesOf(table: string, columns: string, placeholders: string)
    requires ')' !in placeholders
    ensures ParseValues(table, columns, VALUES + placeholders + [')']) == Some((table, Unjoin(columns), Unjoin(placeholders)))
  {
    var s := VALUES + placeholders + [')'];
    assert s[..|VALUES|] == VALUES && s[|VALUES|..] == placeholders + [')'] + [];
    SplitAtConcat(placeholders, ')', []);
  }

  lemma ParseColumnsOf(table: string, columns: string, rest: string)
    requires ')' !in columns
    ensures ParseColumns(table, " (" + columns + [')'] + rest) == ParseValues(table, columns, rest)
  {
    var s := " (" + columns + [')'] + rest;
    assert s[..2] == " (" && s[2..] == columns + [')'] + rest;
    SplitAtConcat(columns, ')', rest);
  }

  lemma ParseInsertOf(table: string, rest: string)
    requires '`' !in table
    ensures ParseInsert(PREFIX + (table + ['`'] + rest)) == ParseColumns(table, rest)
  {
    var s := PREFIX + (table + ['`'] + rest);
    assert s[..|PREFIX|] == PREFIX && s[|PREFIX|..] == table + ['`'] + rest;
    SplitAtConcat(table, '`', rest);
  }

  /** Reading a laid-out statement finds the table and the two lists again. */
  lemma ParseLayout(table: string, columns: string, placeholders: string)
    requires '`' !in table && ')' !in columns && ')' !in placeholders
    ensures ParseInsert(Layout(table, columns, placeholders)) == Some((table, Unjoin(columns), Unjoin(placeholders)))
  {
    var r2 := VALUES + placeholders + [')'];
    ParseValuesOf(table, columns, placeholders);
    ParseColumnsOf(table, columns, r2);
    ParseInsertOf(table, " (" + columns + [')'] + r2);
  }

  /**
   * The statement names the table, then the columns in key order, then one
   * placeholder per column in the same order, each naming the column's key.
   */
  lemma StatementRoundTrip(table: string, keys: seq<string>)
    requires '`' !in table
    requires forall i :: 0 <= i < |keys| ==> PlainName(keys[i])
    ensures ParseInsert(InsertStatement(table, keys)) == Some((table, Columns(keys), Placeholders(keys)))
  {
    ColumnsArePlain(keys);
    JoinFree(Columns(keys), ')');
    JoinFree(Placeholders(keys), ')');
    UnjoinJoin(Columns(keys));
    UnjoinJoin(Placeholders(keys));
    StatementLayout(table, keys);
    ParseLayout(table, JoinWith(Columns(keys)), JoinWith(Placeholders(keys)));
  }

  class Database<V> {
    /** The statements the connection ran, each with its rows of named values. */
    var executed: seq<(string, seq<Row<V>>)>

    constructor ()
      ensures executed == []
    {
      executed := [];
    }

    /** `insert(table, **kwargs)`: one statement for the row's keys, run on the row. */
    method Insert(table: string, row: Row<V>) returns (cursor: nat)
      modifies this
      ensures executed == old(executed) + [(InsertStatement(table, Keys(row)), [row])]
      ensures cursor == |old(executed)|
    {
      cursor := |executed|;
      executed := executed + [(InsertStatement(table, Keys(row)), [row])];
    }

    /**
     * `insertmany(table, data)`: nothing is run for no rows; otherwise one
     * statement, built from the first row's keys, is run on all rows.
     */
    method InsertMany(table: string, data: seq<Row<V>>) returns (cursor: Option<nat>)
      modifies this
      ensures data == [] ==> cursor.None? && executed == old(executed)
      ensures data != [] ==> (cursor == Some(|old(executed)|) &&
        executed == old(executed) + [(InsertStatement(table, Keys(data[0])), data)])
    {
      if |data| < 1 {
        return None;
      }
      cursor := Some(|executed|);
      executed := executed + [(InsertStatement(table, Keys(data[0])), data)];
    }
  }
}
