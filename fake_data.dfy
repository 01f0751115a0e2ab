/** The fake-data generator: a single SQL INSERT statement of `num`
    contacts with distinct emails. The random name and phone generators
    are one stream of drawn strings, consumed in the order the program asks
    for them. */
module FakeData {
  import opened Model
  import IntParse

  const Quote: char := '\''

  /** `replace('\'', "''")`: every single quote doubled, every other
      character kept. */
  function PostgresEscape(s: string): (r: string)
    ensures |r| == |s| + Quotes(s)
    ensures Quote !in s ==> r == s
  {
    if s == [] then []
    else (if s[0] == Quote then [Quote, Quote] else [s[0]]) + PostgresEscape(s[1..])
  }

  /** The number of single quotes in `s`. */
  function Quotes(s: string): nat
  {
    if s == [] then 0 else (if s[0] == Quote then 1 else 0) + Quotes(s[1..])
  }

  /** Reading escaped text back: each `''` becomes `'`. */
  function Unescape(t: string): string
  {
    if t == [] then []
    else if |t| >= 2 && t[0] == Quote && t[1] == Quote then [Quote] + Unescape(t[2..])
    else [t[0]] + Unescape(t[1..])
  }

  /** Text in which quotes only come in adjacent pairs, read from the left:
      the form of a valid quoted SQL string literal's body. */
  predicate QuotesPaired(t: string)
  {
    if t == [] then true
    else if t[0] == Quote then |t| >= 2 && t[1] == Quote && QuotesPaired(t[2..])
    else QuotesPaired(t[1..])
  }

  lemma {:induction false} EscapeWithoutQuotes(s: string)
    requires Quote !in s
    ensures PostgresEscape(s) == s
  {
    if s != [] {
      assert s[1..] <= s[1..];
      assert Quote !in s[1..] by {
        forall i | 0 <= i < |s[1..]| ensures s[1..][i] != Quote { assert s[1..][i] == s[i + 1]; }
      }
      EscapeWithoutQuotes(s[1..]);
      assert [s[0]] + s[1..] == s;
    }
  }

  lemma {:induction false} EscapeAppend(a: string, b: string)
    ensures PostgresEscape(a + b) == PostgresEscape(a) + PostgresEscape(b)
  {
    if a != [] {
      assert (a + b)[0] == a[0];
      assert (a + b)[1..] == a[1..] + b;
      EscapeAppend(a[1..], b);
    } else {
      assert a + b == b;
    }
  }

  lemma {:induction false} UnescapeEscape(s: string)
    ensures Unescape(PostgresEscape(s)) == s
    ensures QuotesPaired(PostgresEscape(s))
  {
    if s != [] {
      var rest := PostgresEscape(s[1..]);
      UnescapeEscape(s[1..]);
      var t := PostgresEscape(s);
      if s[0] == Quote {
        assert t == [Quote, Quote] + rest;
        assert t[2..] == rest;
      } else {
        assert t == [s[0]] + rest;
        assert t[1..] == rest;
      }
      assert [s[0]] + s[1..] == s;
    }
  }

  /** Conversely every text whose quotes are paired is the escape of its
      unescaping, so the escape is a bijection onto such texts. */
  lemma {:induction false} EscapeUnescape(t: string)
    requires QuotesPaired(t)
    ensures PostgresEscape(Unescape(t)) == t
  {
    if t != [] {
      if t[0] == Quote {
        EscapeUnescape(t[2..]);
        var u := Unescape(t);
        assert u == [Quote] + Unescape(t[2..]);
        assert u[1..] == Unescape(t[2..]);
        assert [t[0], t[1]] + t[2..] == t;
      } else {
        EscapeUnescape(t[1..]);
        var u := Unescape(t);
        assert u[1..] == Unescape(t[1..]);
        assert [t[0]] + t[1..] == t;
      }
    }
  }

  const DefaultNum: int := 9000

  /** The row count from the first argument: an `i64`, 9000 when the
      argument is missing or does not parse. */
  function NumArg(arg: Option<string>): (n: int)
    ensures IntParse.MinI64 <= n <= IntParse.MaxI64
  {
    match arg
    case None => DefaultNum
    case Some(a) =>
      match IntParse.ParseI64(a)
      case None => DefaultNum
      case Some(v) => v
  }

  lemma NumArgDefaults(arg: Option<string>)
    ensures arg.None? ==> NumArg(arg) == DefaultNum
    ensures arg.Some? && IntParse.ParseI64(arg.value).None? ==> NumArg(arg) == DefaultNum
    ensures arg == Some("") ==> NumArg(arg) == DefaultNum
  {
  }

  /** Any 64-bit count written in decimal is read back as itself. */
  lemma NumArgReadsDecimal(v: int)
    requires IntParse.MinI64 <= v <= IntParse.MaxI64
    ensures NumArg(Some(IntParse.IntText(v))) == v
  {
    IntParse.ParseIntText(v);
  }

  /** A generated contact. */
  datatype FakeRow = FakeRow(first: string, last: string, phone: string, email: string)

  function EmailOf(first: string, last: string): string
  {
    first + "." + last + "@example.com"
  }

  const Header: string := "INSERT INTO Contacts (first, last, phone, email) VALUES "

  predicate StartsWith<T(==)>(s: seq<T>, p: seq<T>)
  {
    |p| <= |s| && s[..|p|] == p
  }

  predicate EndsWith<T(==)>(s: seq<T>, e: seq<T>)
  {
    |e| <= |s| && s[|s| - |e|..] == e
  }

  lemma EndsWithAppend<T>(x: seq<T>, y: seq<T>, e: seq<T>)
    requires EndsWith(y, e)
    ensures EndsWith(x + y, e)
  {
    assert (x + y)[|x + y| - |e|..] == y[|y| - |e|..];
  }

  lemma StartsWithAppend<T>(x: seq<T>, y: seq<T>, p: seq<T>)
    requires StartsWith(x, p)
    ensures StartsWith(x + y, p)
  {
    assert (x + y)[..|p|] == x[..|p|];
  }

  /** One VALUES tuple with its trailing comma, on a line of its own. */
  function RowLine(r: FakeRow): (line: string)
    ensures StartsWith(line, "('") && EndsWith(line, "'),\n")
  {
    var fields := PostgresEscape(r.first) + "', '" + PostgresEscape(r.last) + "', '"
      + PostgresEscape(r.phone) + "', '" + PostgresEscape(r.email);
    assert ("('" + fields)[..2] == "('";
    StartsWithAppend("('" + fields, "'),\n", "('");
    EndsWithAppend("('" + fields, "'),\n", "'),\n");
    "('" + fields + "'),\n"
  }

  /** The tuple lines of `rows`, in order. */
  function RowLines(rows: seq<FakeRow>): string
  {
    if rows == [] then [] else RowLines(rows[..|rows| - 1]) + RowLine(rows[|rows| - 1])
  }

  /** The statement holding `rows`. */
  function Statement(rows: seq<FakeRow>): (t: string)
    ensures |t| > |Header| && t[|t| - 1] == ';'
  {
    Header + RowLines(rows) + ";"
  }

  /** Without rows the statement is the header directly followed by `;`. */
  lemma EmptyStatement()
    ensures Statement([]) == Header + ";"
  {
    assert RowLines([]) == [];
  }

  /** The last tuple keeps its trailing comma, so a statement with rows
      ends in `'),` and a newline before the `;`. */
  lemma StatementEnding(rows: seq<FakeRow>)
    requires rows != []
    ensures var t := Statement(rows); EndsWith(t[..|t| - 1], "'),\n")
  {
    var t := Statement(rows);
    var n := |rows| - 1;
    var lines := RowLines(rows[..n]);
    var line := RowLine(rows[n]);
    assert RowLines(rows) == lines + line;
    assert t[..|t| - 1] == Header + (lines + line);
    EndsWithAppend(lines, line, "'),\n");
    EndsWithAppend(Header, lines + line, "'),\n");
  }

  /** How many times one row's names are drawn before the generator gives
      up. */
  const MaxTries: nat := 10_000_000

  predicate DistinctEmails(rows: seq<FakeRow>)
  {
    forall i, j :: 0 <= i < j < |rows| ==> rows[i].email != rows[j].email
  }

  /** Where candidate `t` of a row drawn from position `k` starts: the
      first candidate's names are the row's first two draws, the phone is
      the third, and every later candidate is a further pair of draws. */
  function PairAt(k: nat, t: nat): (i: nat)
    ensures t == 0 ==> i == k
    ensures t > 0 ==> i == k + 3 + 2 * (t - 1)
  {
    if t == 0 then k else k + 1 + 2 * t
  }

  /** The email of candidate `t`. */
  function Cand(draws: nat -> string, k: nat, t: nat): string
  {
    EmailOf(draws(PairAt(k, t)), draws(PairAt(k, t) + 1))
  }

  /** Every candidate a row drawn from position `k` checks is in `used`. */
  predicate AllTaken(used: set<string>, draws: nat -> string, k: nat)
  {
    forall t :: 0 <= t < MaxTries - 1 ==> Cand(draws, k, t) in used
  }

  /** `row` is the first candidate from position `k` whose email is not in
      `used`, with the phone drawn third, and `next` is the stream position
      right after that candidate's names. */
  predicate FirstFresh(used: set<string>, draws: nat -> string, k: nat, row: FakeRow, next: nat)
  {
    exists t ::
      && 0 <= t < MaxTries - 1
      && (forall u :: 0 <= u < t ==> Cand(draws, k, u) in used)
      && Cand(draws, k, t) !in used
      && row == FakeRow(draws(PairAt(k, t)), draws(PairAt(k, t) + 1), draws(k + 2), Cand(draws, k, t))
      && next == k + 3 + 2 * t
  }

  /** One row's draws from position `k` of the stream: a first name, a last
      name and a phone number, then new names for as long as the email is in
      `used`. The names are drawn at most 10,000,000 times; the last pair is
      not checked, so the row gives up exactly when the first 9,999,999
      candidates are all used, and otherwise takes the first candidate that
      is not. Returns the row and the next stream position. */
  method DrawRow(used: set<string>, draws: nat -> string, k: nat) returns (row: FakeRow, next: nat, gaveUp: bool)
    ensures row.email == EmailOf(row.first, row.last)
    ensures row.phone == draws(k + 2)
    ensures gaveUp <==> AllTaken(used, draws, k)
    ensures !gaveUp ==> FirstFresh(used, draws, k, row, next)
  {
    var first := draws(k);
    var last := draws(k + 1);
    var phone := draws(k + 2);
    next := k + 3;
    var email := EmailOf(first, last);
    var tries := 1;
    gaveUp := false;
    while email in used
      invariant 1 <= tries < MaxTries
      invariant first == draws(PairAt(k, tries - 1)) && last == draws(PairAt(k, tries - 1) + 1)
      invariant email == EmailOf(first, last) && email == Cand(draws, k, tries - 1)
      invariant next == k + 1 + 2 * tries
      invariant forall u :: 0 <= u < tries - 1 ==> Cand(draws, k, u) in used
      decreases MaxTries - tries
    {
      first := draws(next);
      last := draws(next + 1);
      next := next + 2;
      email := EmailOf(first, last);
      tries := tries + 1;
      if tries == MaxTries {
        gaveUp := true;
        break;
      }
    }
    row := FakeRow(first, last, phone, email);
    if !gaveUp {
      ghost var t := tries - 1;
      assert Cand(draws, k, t) !in used && next == k + 3 + 2 * t;
    }
  }

  /** Every row's email is built from its own names. */
  predicate EmailsFromNames(rows: seq<FakeRow>)
  {
    forall i :: 0 <= i < |rows| ==> rows[i].email == EmailOf(rows[i].first, rows[i].last)
  }

  /** The emails of `rows`: the generator's `used_emails`. */
  function Emails(rows: seq<FakeRow>): set<string>
  {
    if rows == [] then {} else Emails(rows[..|rows| - 1]) + {rows[|rows| - 1].email}
  }

  lemma {:induction false} EmailsHold(rows: seq<FakeRow>)
    ensures forall i :: 0 <= i < |rows| ==> rows[i].email in Emails(rows)
  {
    if rows != [] {
      var n := |rows| - 1;
      EmailsHold(rows[..n]);
      forall i | 0 <= i < n ensures rows[i].email in Emails(rows) {
        assert rows[..n][i] == rows[i];
      }
    }
  }

  /** Appending a row whose email is not yet used keeps the emails
      distinct, and adds its email to the used ones; the statement gains
      the row's line. */
  lemma AppendFreshRow(rows: seq<FakeRow>, row: FakeRow)
    requires DistinctEmails(rows)
    requires row.email !in Emails(rows)
    requires EmailsFromNames(rows) && row.email == EmailOf(row.first, row.last)
    ensures DistinctEmails(rows + [row])
    ensures EmailsFromNames(rows + [row])
    ensures Emails(rows + [row]) == Emails(rows) + {row.email}
  {
    var rs := rows + [row];
    assert rs[..|rows|] == rows;
    EmailsHold(rows);
  }

  /** Appending a row appends its tuple line to the statement so far. */
  lemma AppendRowLine(rows: seq<FakeRow>, row: FakeRow)
    ensures Header + RowLines(rows + [row]) == Header + RowLines(rows) + RowLine(row)
  {
    var rs := rows + [row];
    assert rs[..|rows|] == rows;
    assert RowLines(rs) == RowLines(rows) + RowLine(row);
    assert Header + (RowLines(rows) + RowLine(row)) == Header + RowLines(rows) + RowLine(row);
  }

  /** What the generator's loop keeps: the output so far is the header
      and one line per row, the emails are distinct and built from the
      names, and `used` holds exactly the rows' emails. */
  predicate Generated(rows: seq<FakeRow>, out: string, used: set<string>)
  {
    && out == Header + RowLines(rows)
    && DistinctEmails(rows)
    && EmailsFromNames(rows)
    && used == Emails(rows)
  }

  /** The rows were drawn one after another from the start of the stream:
      row `i` is the first fresh candidate, over the emails of the rows
      before it, at the position `pos[i]` where row `i - 1` ended. */
  ghost predicate DrawnAlong(rows: seq<FakeRow>, draws: nat -> string, pos: seq<nat>)
  {
    && |pos| == |rows| + 1
    && pos[0] == 0
    && forall i :: 0 <= i < |rows| ==> FirstFresh(Emails(rows[..i]), draws, pos[i], rows[i], pos[i + 1])
  }

  lemma DrawnAlongAppend(rows: seq<FakeRow>, row: FakeRow, draws: nat -> string, pos: seq<nat>, next: nat)
    requires DrawnAlong(rows, draws, pos)
    requires FirstFresh(Emails(rows), draws, pos[|rows|], row, next)
    ensures DrawnAlong(rows + [row], draws, pos + [next])
  {
    var rs, ps := rows + [row], pos + [next];
    forall i | 0 <= i < |rs|
      ensures FirstFresh(Emails(rs[..i]), draws, ps[i], rs[i], ps[i + 1])
    {
      if i < |rows| {
        assert rs[..i] == rows[..i];
        assert rs[i] == rows[i] && ps[i] == pos[i] && ps[i + 1] == pos[i + 1];
      } else {
        assert rs[..i] == rows;
      }
    }
  }

  /** What the generator's loop keeps, with the stream positions at which
      the rows were drawn: `k` is where the next row starts. */
  ghost predicate Drawing(rows: seq<FakeRow>, out: string, used: set<string>, draws: nat -> string, pos: seq<nat>, k: nat)
  {
    Generated(rows, out, used) && DrawnAlong(rows, draws, pos) && pos[|rows|] == k
  }

  /** One turn of the generator's loop from stream position `k`: draw a
      row and, unless that gives up, write its line and record its email.
      Giving up changes nothing. */
  method NextRow(rows: seq<FakeRow>, out: string, used: set<string>, draws: nat -> string, k: nat, ghost pos: seq<nat>)
      returns (rows': seq<FakeRow>, out': string, used': set<string>, row: FakeRow, k': nat, gaveUp: bool, ghost pos': seq<nat>)
    requires Drawing(rows, out, used, draws, pos, k)
    ensures Generated(rows', out', used')
    ensures gaveUp <==> AllTaken(used, draws, k)
    ensures !gaveUp ==> rows' == rows + [row] && FirstFresh(used, draws, k, row, k')
    ensures !gaveUp ==> Drawing(rows', out', used', draws, pos', k')
    ensures gaveUp ==> rows' == rows && out' == out && used' == used
  {
    row, k', gaveUp := DrawRow(used, draws, k);
    if gaveUp {
      return rows, out, used, row, k', gaveUp, pos;
    }
    DrawnAlongAppend(rows, row, draws, pos, k');
    pos' := pos + [k'];
    AppendFreshRow(rows, row);
    AppendRowLine(rows, row);
    out' := out + RowLine(row);
    rows' := rows + [row];
    used' := used + {row.email};
  }

  /** The generator. `draws(k)` is the k-th string the random generators
      produce. Rows are drawn one after another, each with an email not
      used before; a row that gives up ends the whole run without being
      written. Returns the statement, the rows in it, and whether
      generation gave up. */
  method Write(num: int, draws: nat -> string) returns (out: string, rows: seq<FakeRow>, gaveUp: bool)
    ensures out == Statement(rows)
    ensures DistinctEmails(rows)
    ensures EmailsFromNames(rows)
    ensures !gaveUp ==> |rows| == if num < 0 then 0 else num
    ensures gaveUp ==> |rows| < num
    ensures exists pos :: DrawnAlong(rows, draws, pos) && (gaveUp ==> AllTaken(Emails(rows), draws, pos[|rows|]))
  {
    out := Header;
    rows := [];
    gaveUp := false;
    var used: set<string> := {};
    var k: nat := 0;
    var n := 0;
    ghost var pos: seq<nat> := [0];
    while n < num
      invariant 0 <= n && (n <= num || n == 0)
      invariant |rows| == n
      invariant Drawing(rows, out, used, draws, pos, k)
      invariant !gaveUp
    {
      var row;
      ghost var pos';
      rows, out, used, row, k, gaveUp, pos' := NextRow(rows, out, used, draws, k, pos);
      if gaveUp {
        assert AllTaken(Emails(rows), draws, pos[|rows|]);
        break;
      }
      pos := pos';
      n := n + 1;
    }
    out := out + ";";
  }
}
