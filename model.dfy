/** Shared types of the contacts application: the crate-wide error enum,
    the contact record, and the comma-joined record text that both archive
    writers produce. */
module Model {

  datatype Option<+T> = None | Some(value: T)

  datatype Result<+T, +E> = Ok(value: T) | Err(error: E)

  /** An operating-system I/O failure, identified by its kind. */
  datatype IoError = IoError(kind: string)

  /** A failure reported by the database driver. `Database` is an error
      returned by the server, which may be a unique-constraint violation;
      every other driver failure (pool, protocol, decoding) is `Other`. */
  datatype SqlError =
    | DatabaseError(uniqueViolation: bool, message: string)
    | OtherSqlError(message: string)

  /** The application error enum. */
  datatype Error =
    | ArchiverRunning
    | DuplicateEmail
    | Database(sql: SqlError)
    | Io(io: IoError)

  /** A contact id, represented by its displayed (UUID) text. */
  type ContactId = string

  datatype Contact = Contact(id: ContactId, first: string, last: string, phone: string, email: string)

  /** The five fields of a contact joined by commas, in the order
      id, first, last, phone, email, with no quoting and no terminator. */
  function CsvRecord(c: Contact): (r: string)
    ensures r == JoinWith([c.id, c.first, c.last, c.phone, c.email], ',')
  {
    JoinFive(c.id, c.first, c.last, c.phone, c.email, ',');
    c.id + "," + c.first + "," + c.last + "," + c.phone + "," + c.email
  }

  lemma JoinFive<T>(a: seq<T>, b: seq<T>, c: seq<T>, d: seq<T>, e: seq<T>, sep: T)
    ensures JoinWith([a, b, c, d, e], sep) == a + [sep] + b + [sep] + c + [sep] + d + [sep] + e
  {
    var ps := [a, b, c, d, e];
    assert ps[1..] == [b, c, d, e] && ps[1..][1..] == [c, d, e];
    assert ps[1..][1..][1..] == [d, e] && ps[1..][1..][1..][1..] == [e];
    assert JoinWith([d, e], sep) == d + [sep] + e;
    assert JoinWith([c, d, e], sep) == c + [sep] + (d + [sep] + e);
    assert JoinWith([b, c, d, e], sep) == b + [sep] + (c + [sep] + (d + [sep] + e));
  }

  /** Splits `s` at every occurrence of `sep`; always yields at least one piece. */
  function SplitAt<T(==)>(s: seq<T>, sep: T): (pieces: seq<seq<T>>)
    ensures |pieces| >= 1
  {
    if s == [] then [[]]
    else if s[0] == sep then [[]] + SplitAt(s[1..], sep)
    else
      var rest := SplitAt(s[1..], sep);
      [[s[0]] + rest[0]] + rest[1..]
  }

  lemma {:induction false} SplitAtNoSep<T>(s: seq<T>, sep: T)
    requires sep !in s
    ensures SplitAt(s, sep) == [s]
  {
    if s != [] {
      SplitAtNoSep(s[1..], sep);
      assert [s[0]] + s[1..] == s;
    }
  }

  lemma {:induction false} SplitAtJoin<T>(a: seq<T>, b: seq<T>, sep: T)
    requires sep !in a
    ensures SplitAt(a + [sep] + b, sep) == [a] + SplitAt(b, sep)
  {
    if a == [] {
      assert a + [sep] + b == [sep] + b;
    } else {
      assert (a + [sep] + b)[1..] == a[1..] + [sep] + b;
      SplitAtJoin(a[1..], b, sep);
      assert [a[0]] + a[1..] == a;
    }
  }

  /** Joins pieces with `sep` between consecutive ones. */
  function JoinWith<T>(pieces: seq<seq<T>>, sep: T): seq<T>
  {
    if |pieces| == 0 then []
    else if |pieces| == 1 then pieces[0]
    else pieces[0] + [sep] + JoinWith(pieces[1..], sep)
  }

  /** Splitting loses nothing: joining the pieces back with the separator
      gives the input, and no piece contains the separator. */
  lemma SplitAtInverse<T>(s: seq<T>, sep: T)
    ensures JoinWith(SplitAt(s, sep), sep) == s
    ensures forall i :: 0 <= i < |SplitAt(s, sep)| ==> sep !in SplitAt(s, sep)[i]
  {
    JoinSplit(s, sep);
    PiecesLackSep(s, sep);
  }

  lemma {:induction false} JoinSplit<T>(s: seq<T>, sep: T)
    ensures JoinWith(SplitAt(s, sep), sep) == s
  {
    if s != [] {
      var rest := SplitAt(s[1..], sep);
      JoinSplit(s[1..], sep);
      assert [s[0]] + s[1..] == s;
      if s[0] == sep {
        assert SplitAt(s, sep) == [[]] + rest;
      } else {
        var pieces := SplitAt(s, sep);
        assert pieces == [[s[0]] + rest[0]] + rest[1..];
        if |rest| > 1 {
          assert pieces[1..] == rest[1..];
          assert JoinWith(rest, sep) == rest[0] + [sep] + JoinWith(rest[1..], sep);
        }
      }
    }
  }

  lemma {:induction false} PiecesLackSep<T>(s: seq<T>, sep: T)
    ensures forall i :: 0 <= i < |SplitAt(s, sep)| ==> sep !in SplitAt(s, sep)[i]
  {
    if s != [] {
      var rest := SplitAt(s[1..], sep);
      PiecesLackSep(s[1..], sep);
      var pieces := SplitAt(s, sep);
      if s[0] == sep {
        assert pieces == [[]] + rest;
      } else {
        assert pieces == [[s[0]] + rest[0]] + rest[1..];
        forall i | 0 <= i < |pieces| ensures sep !in pieces[i] {
          if i > 0 { assert pieces[i] == rest[i]; }
        }
      }
    }
  }

  /** The record with its commas grouped from the right. */
  lemma RecordNested(c: Contact)
    ensures CsvRecord(c) == c.id + [','] + (c.first + [','] + (c.last + [','] + (c.phone + [','] + c.email)))
  {
    var sep := [','];
    assert c.id + "," + c.first == c.id + sep + c.first;
    assert c.id + sep + c.first + sep + c.last == c.id + sep + (c.first + sep + c.last);
    assert c.id + sep + (c.first + sep + c.last) + sep + c.phone
        == c.id + sep + (c.first + sep + (c.last + sep + c.phone));
  }

  /** When no field contains a comma, the record splits back into exactly
      its five fields; otherwise the line is ambiguous (no escaping). */
  lemma CsvRecordSplits(c: Contact)
    requires ',' !in c.id && ',' !in c.first && ',' !in c.last
    requires ',' !in c.phone && ',' !in c.email
    ensures SplitAt(CsvRecord(c), ',') == [c.id, c.first, c.last, c.phone, c.email]
  {
    var t3 := c.phone + [','] + c.email;
    var t2 := c.last + [','] + t3;
    var t1 := c.first + [','] + t2;
    RecordNested(c);
    SplitAtNoSep(c.email, ',');
    SplitAtJoin(c.phone, c.email, ',');
    SplitAtJoin(c.last, t3, ',');
    SplitAtJoin(c.first, t2, ',');
    SplitAtJoin(c.id, t1, ',');
  }
}
