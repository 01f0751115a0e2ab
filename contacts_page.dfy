/** The contact-list page handlers: the page number a listing request uses,
    and the bulk delete, which reads the raw form body itself. The body is
    split at every `&` into parameters, each parameter at its first `=` into
    a name and a value; every value must be UTF-8 text of a 64-bit integer,
    and each parameter named `selected_contact_ids` deletes that id. The
    deletions happen in parameter order and the first malformed parameter
    or failed deletion ends the request with an error. */
module ContactsPage {
  import opened Model
  import IntParse

  newtype byte = b: int | 0 <= b < 256

  const Amp: byte := 0x26
  const Eq: byte := 0x3D

  /** The query's `page`, 1 when absent. */
  function PageOrDefault(page: Option<nat>): (p: nat)
    ensures page.None? ==> p == 1
    ensures page.Some? ==> p == page.value
  {
    match page
    case None => 1
    case Some(n) => n
  }

  /** Bytes read one-to-one as characters (ISO 8859-1). Every ASCII byte
      becomes the ASCII character of the same code. */
  function BytesAsChars(b: seq<byte>): (s: string)
    ensures |s| == |b| && forall i :: 0 <= i < |b| ==> s[i] as int == b[i] as int
  {
    seq(|b|, i requires 0 <= i < |b| => (b[i] as int) as char)
  }

  predicate InRange(b: byte, lo: int, hi: int) { lo <= b as int <= hi }

  /** Well-formed UTF-8 as the standard library's `from_utf8` accepts it:
      no overlong forms, no surrogates, nothing above U+10FFFF. */
  predicate IsUtf8(b: seq<byte>): (ok: bool)
    ensures ok && b != [] ==> b[0] < 0x80 || InRange(b[0], 0xC2, 0xF4)
    decreases |b|
  {
    if b == [] then true
    else if b[0] < 0x80 then IsUtf8(b[1..])
    else if InRange(b[0], 0xC2, 0xDF) then
      |b| >= 2 && InRange(b[1], 0x80, 0xBF) && IsUtf8(b[2..])
    else if InRange(b[0], 0xE0, 0xEF) then
      var lo := if b[0] == 0xE0 then 0xA0 else 0x80;
      var hi := if b[0] == 0xED then 0x9F else 0xBF;
      |b| >= 3 && InRange(b[1], lo, hi) && InRange(b[2], 0x80, 0xBF) && IsUtf8(b[3..])
    else if InRange(b[0], 0xF0, 0xF4) then
      var lo := if b[0] == 0xF0 then 0x90 else 0x80;
      var hi := if b[0] == 0xF4 then 0x8F else 0xBF;
      |b| >= 4 && InRange(b[1], lo, hi) && InRange(b[2], 0x80, 0xBF) && InRange(b[3], 0x80, 0xBF)
      && IsUtf8(b[4..])
    else false
  }

  lemma {:induction false} AsciiIsUtf8(b: seq<byte>)
    requires forall i :: 0 <= i < |b| ==> b[i] < 0x80
    ensures IsUtf8(b)
  {
    if b != [] {
      AsciiIsUtf8(b[1..]);
    }
  }

  /** Why a form parameter is refused. */
  datatype ParamError = NoName | NoValue | NotUtf8 | NotANumber

  /** `splitn(2, '=')`: the text up to the first `=` and, when there is
      one, the text after it. */
  function SplitFirst(p: seq<byte>): (pieces: seq<seq<byte>>)
    ensures 1 <= |pieces| <= 2
    ensures Eq !in pieces[0]
    ensures |pieces| == 2 <==> Eq in p
    ensures |pieces| == 1 ==> pieces[0] == p
    ensures |pieces| == 2 ==> p == pieces[0] + [Eq] + pieces[1]
  {
    if p == [] then [[]]
    else if p[0] == Eq then [[], p[1..]]
    else
      var rest := SplitFirst(p[1..]);
      assert [p[0]] + p[1..] == p;
      [[p[0]] + rest[0]] + rest[1..]
  }

  /** A parsed parameter: its raw name and its value. */
  datatype Param = Param(name: seq<byte>, value: int)

  /** The per-parameter parse chain: a name, a value, UTF-8, an `i64`.
      "param had no name" cannot happen: a split always has a first piece,
      and "no value" happens exactly when there is no `=`. */
  function ParseParam(p: seq<byte>): (r: Result<Param, ParamError>)
    ensures r != Err(NoName)
    ensures r == Err(NoValue) <==> Eq !in p
  {
    var pieces := SplitFirst(p);
    if |pieces| == 0 then Err(NoName)
    else if |pieces| == 1 then Err(NoValue)
    else if !IsUtf8(pieces[1]) then Err(NotUtf8)
    else match IntParse.ParseI64(BytesAsChars(pieces[1]))
      case None => Err(NotANumber)
      case Some(v) => Ok(Param(pieces[0], v))
  }

  /** A parameter is accepted exactly when it has an `=` and the text after
      its first `=` is a 64-bit integer; the name is anything before it. */
  lemma ParseParamAccepts(p: seq<byte>)
    ensures ParseParam(p).Ok? <==>
      Eq in p && IntParse.ParseI64(BytesAsChars(SplitFirst(p)[1])).Some?
    ensures ParseParam(p).Ok? ==>
      p == ParseParam(p).value.name + [Eq] + SplitFirst(p)[1] && Eq !in ParseParam(p).value.name
    ensures ParseParam(p).Ok? ==>
      Some(ParseParam(p).value.value) == IntParse.ParseI64(BytesAsChars(SplitFirst(p)[1]))
  {
    var pieces := SplitFirst(p);
    if |pieces| == 2 {
      AsciiDigitsText(pieces[1]);
    }
  }

  /** Text that parses as an `i64` is ASCII, and so valid UTF-8. */
  lemma AsciiDigitsText(b: seq<byte>)
    ensures IntParse.ParseI64(BytesAsChars(b)).Some? ==> IsUtf8(b)
  {
    var v := BytesAsChars(b);
    if IntParse.ParseI64(v).Some? {
      forall i | 0 <= i < |b| ensures b[i] < 0x80 {
        assert IntParse.IsDigit(v[i]) || v[i] in "+-";
      }
      AsciiIsUtf8(b);
    }
  }

  /** The raw name that makes a parameter a deletion. */
  const SelectedContactIds: string := "selected_contact_ids"

  predicate IsSelection(name: seq<byte>)
  {
    BytesAsChars(name) == SelectedContactIds
  }

  /** Why the bulk delete failed: a malformed parameter, or a deletion the
      store refused. */
  datatype DeleteError = Malformed(param: ParamError) | Store(error: Error)

  /** What parameter `p` does, given `outcome`, the store's answer should it
      be asked to delete: fail, delete an id, or nothing. A parameter
      deletes `id` exactly when it is well formed, named
      `selected_contact_ids`, carries `id`, and the store accepts the
      deletion; a well-formed parameter of any other name does nothing; a
      malformed one fails with its parse error, whatever its name. */
  function ParamEffect(p: seq<byte>, outcome: Option<Error>): (r: Result<Option<int>, DeleteError>)
    ensures r.Ok? && r.value.Some? <==>
      ParseParam(p).Ok? && IsSelection(ParseParam(p).value.name) && outcome.None?
    ensures r.Ok? && r.value.Some? ==> r.value.value == ParseParam(p).value.value
    ensures r == Ok(None) <==> ParseParam(p).Ok? && !IsSelection(ParseParam(p).value.name)
    ensures ParseParam(p).Err? ==> r == Err(Malformed(ParseParam(p).error))
    ensures r.Err? && r.error.Store? ==> outcome == Some(r.error.error)
  {
    match ParseParam(p)
    case Err(e) => Err(Malformed(e))
    case Ok(param) =>
      if !IsSelection(param.name) then Ok(None)
      else if outcome.Some? then Err(Store(outcome.value))
      else Ok(Some(param.value))
  }

  type Effect = Result<Option<int>, DeleteError>

  /** The effect of each parameter. */
  function Effects(ps: seq<seq<byte>>, outs: seq<Option<Error>>): (es: seq<Effect>)
    requires |ps| == |outs|
    ensures |es| == |ps|
    ensures forall j {:trigger ParamEffect(ps[j], outs[j])} :: 0 <= j < |ps| ==> es[j] == ParamEffect(ps[j], outs[j])
  {
    if ps == [] then []
    else
      var n := |ps| - 1;
      Effects(ps[..n], outs[..n]) + [ParamEffect(ps[n], outs[n])]
  }

  /** The ids that effects `es` delete, in order. */
  function DeletedIds(es: seq<Effect>): seq<int>
  {
    if es == [] then []
    else
      var n := |es| - 1;
      DeletedIds(es[..n]) + (if es[n].Ok? && es[n].value.Some? then [es[n].value.value] else [])
  }

  /** The deletions of a sequence of effects are those of its first part
      followed by those of the rest. */
  lemma {:induction false} DeletedIdsAppend(a: seq<Effect>, b: seq<Effect>)
    ensures DeletedIds(a + b) == DeletedIds(a) + DeletedIds(b)
    decreases |b|
  {
    if b == [] {
      assert a + b == a;
    } else {
      var n := |b| - 1;
      assert (a + b)[..|a + b| - 1] == a + b[..n];
      DeletedIdsAppend(a, b[..n]);
    }
  }

  /** Every id deleted is the id of an effect that deletes it. */
  lemma {:induction false} DeletedIdsFromEffects(es: seq<Effect>)
    ensures forall id :: id in DeletedIds(es) ==> exists j :: 0 <= j < |es| && es[j] == Ok(Some(id))
  {
    if es != [] {
      var n := |es| - 1;
      DeletedIdsFromEffects(es[..n]);
      forall id | id in DeletedIds(es) ensures exists j :: 0 <= j < |es| && es[j] == Ok(Some(id)) {
        if id in DeletedIds(es[..n]) {
          var j :| 0 <= j < n && es[..n][j] == Ok(Some(id));
          assert es[j] == Ok(Some(id));
        } else {
          assert es[n] == Ok(Some(id));
        }
      }
    }
  }

  lemma OkPrefixGrows(es: seq<Effect>, i: nat)
    requires i < |es| && es[i].Ok?
    requires forall j :: 0 <= j < i ==> es[j].Ok?
    ensures forall j :: 0 <= j < i + 1 ==> es[j].Ok?
  {
  }

  /** One turn of the bulk delete's loop: parameter `i` is parsed and,
      when it is a selection, its deletion asked of the store. Returns the
      ids deleted so far and the error that ends the request, if any. */
  method DeleteNext(ps: seq<seq<byte>>, outs: seq<Option<Error>>, i: nat, deleted: seq<int>)
      returns (deleted': seq<int>, failed: Option<DeleteError>)
    requires |ps| == |outs| && i < |ps|
    requires deleted == DeletedIds(Effects(ps, outs)[..i])
    ensures failed.None? <==> Effects(ps, outs)[i].Ok?
    ensures failed.Some? ==> Effects(ps, outs)[i] == Err(failed.value) && deleted' == deleted
    ensures failed.None? ==> deleted' == DeletedIds(Effects(ps, outs)[..i + 1])
  {
    ghost var es := Effects(ps, outs);
    assert es[..i + 1][..i] == es[..i];
    var effect := ParamEffect(ps[i], outs[i]);
    match effect {
      case Err(e) =>
        deleted', failed := deleted, Some(e);
      case Ok(None) =>
        deleted', failed := deleted, None;
      case Ok(Some(id)) =>
        deleted', failed := deleted + [id], None;
    }
  }

  /** The bulk delete. `outs[i]` is the store's answer should parameter `i`
      ask for a deletion (`None` for success). Returns the ids deleted, in
      order, and the request's outcome: success exactly when every
      parameter took effect, and otherwise the error of the first one that
      did not, with the deletions of the parameters before it done. */
  method Delete(form: seq<byte>, outs: seq<Option<Error>>) returns (deleted: seq<int>, r: Result<(), DeleteError>)
    requires |outs| == |SplitAt(form, Amp)|
    ensures var es := Effects(SplitAt(form, Amp), outs);
      r.Ok? <==> forall i :: 0 <= i < |es| ==> es[i].Ok?
    ensures r.Ok? ==> deleted == DeletedIds(Effects(SplitAt(form, Amp), outs))
    ensures var es := Effects(SplitAt(form, Amp), outs);
      r.Err? ==> exists k ::
        && 0 <= k < |es|
        && (forall j :: 0 <= j < k ==> es[j].Ok?)
        && es[k] == Err(r.error)
        && deleted == DeletedIds(es[..k])
  {
    var ps := SplitAt(form, Amp);
    ghost var es := Effects(ps, outs);
    deleted := [];
    var i := 0;
    while i < |ps|
      invariant 0 <= i <= |ps|
      invariant forall j :: 0 <= j < i ==> es[j].Ok?
      invariant deleted == DeletedIds(es[..i])
    {
      var failed;
      deleted, failed := DeleteNext(ps, outs, i, deleted);
      if failed.Some? {
        return deleted, Err(failed.value);
      }
      OkPrefixGrows(es, i);
      i := i + 1;
    }
    assert es[..|es|] == es;
    r := Ok(());
  }

  /** The empty body is one parameter without `=`, so it is refused, and
      no deletion happens. */
  lemma EmptyFormRefused(form: seq<byte>, outcome: Option<Error>)
    requires form == []
    ensures SplitAt(form, Amp) == [form]
    ensures ParamEffect(form, outcome) == Err(Malformed(NoValue))
  {
  }
}
