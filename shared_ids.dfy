/**
 * The per-user "shared list" string: the list IDs shared with a user, each
 * written as `str(id) + " "`. Registration starts it as the empty string,
 * sharing a new list appends one token, and the index view reads it back by
 * splitting at spaces, removing the first empty piece and converting every
 * remaining piece with `int`.
 */
module SharedIds {
  import opened Wrappers
  import opened Text

  /** The piece appended for one list: its decimal ID and a trailing space. */
  function Token(id: nat): (t: string)
    ensures |t| >= 2 && t[|t| - 1] == ' '
    ensures forall i :: 0 <= i < |t| - 1 ==> IsDigit(t[i])
  {
    NatToString(id) + " "
  }

  /** The string that holds `ids`, oldest first: empty exactly when there
      are none, and otherwise ending in the separator. */
  function Encode(ids: seq<nat>): (s: string)
    ensures s == "" <==> ids == []
    ensures s != "" ==> s[|s| - 1] == ' '
  {
    if ids == [] then "" else Token(ids[0]) + Encode(ids[1..])
  }

  /** Sharing one more list appends its token: this is how the string grows. */
  lemma {:induction false} EncodeSnoc(ids: seq<nat>, id: nat)
    ensures Encode(ids + [id]) == Encode(ids) + Token(id)
    decreases |ids|
  {
    if ids == [] {
      assert [] + [id] == [id];
      assert [id][1..] == [];
    } else {
      EncodeSnoc(ids[1..], id);
      assert (ids + [id])[0] == ids[0];
      assert (ids + [id])[1..] == ids[1..] + [id];
    }
  }

  /** `n` copies of `id`. */
  function Copies(id: nat, n: nat): (r: seq<nat>)
    ensures |r| == n
  {
    if n == 0 then [] else Copies(id, n - 1) + [id]
  }

  /** Appending the token of `id` `n` times records `n` more shares of `id`. */
  lemma {:induction false} EncodeRepeat(ids: seq<nat>, id: nat, n: nat)
    ensures Encode(ids) + Repeat(Token(id), n) == Encode(ids + Copies(id, n))
    decreases n
  {
    var t := Token(id);
    if n == 0 {
      assert ids + [] == ids;
      assert Encode(ids) + "" == Encode(ids);
    } else {
      var r := Repeat(t, n - 1);
      var before := ids + Copies(id, n - 1);
      calc {
        Encode(ids) + Repeat(t, n);
        Encode(ids) + (r + t);
        { assert Encode(ids) + (r + t) == (Encode(ids) + r) + t; }
        (Encode(ids) + r) + t;
        { EncodeRepeat(ids, id, n - 1); }
        Encode(before) + t;
        { EncodeSnoc(before, id); }
        Encode(before + [id]);
        { assert before + [id] == ids + Copies(id, n); }
        Encode(ids + Copies(id, n));
      }
    }
  }

  /** Why the index view can fail to read a string. */
  datatype DecodeError =
    | NoEmptyPiece  // `remove("")` found no empty piece
    | NotAnInteger  // `int(piece)` rejected a piece

  /** `int` applied to every piece, in order; `None` when one is rejected. */
  function ParseAll(pieces: seq<string>): (r: Option<seq<int>>)
    ensures r.Some? ==> |r.value| == |pieces|
    decreases |pieces|
  {
    if pieces == [] then Some([])
    else
      match ParseAll(pieces[..|pieces| - 1])
      case None => None
      case Some(init) =>
        match ParseInt(pieces[|pieces| - 1])
        case None => None
        case Some(n) => Some(init + [n])
  }

  /** One piece that `int` rejects makes the whole conversion fail. */
  lemma {:induction false} ParseAllStops(pieces: seq<string>, t: nat)
    requires t < |pieces| && ParseInt(pieces[t]).None?
    ensures ParseAll(pieces).None?
    decreases |pieces|
  {
    var n := |pieces|;
    if t < n - 1 {
      assert pieces[..n - 1][t] == pieces[t];
      ParseAllStops(pieces[..n - 1], t);
    }
  }

  /** The list IDs the index view reads out of a shared-list string: one
      per space in it. */
  function Decode(s: string): (r: Result<seq<int>, DecodeError>)
    ensures r.Success? ==> |r.value| == multiset(s)[' ']
  {
    SplitCount(s, ' ');
    match RemoveFirst(Split(s, ' '), "")
    case None => Failure(NoEmptyPiece)
    case Some(pieces) =>
      match ParseAll(pieces)
      case None => Failure(NotAnInteger)
      case Some(ids) => Success(ids)
  }

  /** The decimal numerals of `ids`, in order. */
  function Numerals(ids: seq<nat>): seq<string>
  {
    seq(|ids|, i requires 0 <= i < |ids| => NatToString(ids[i]))
  }

  lemma {:induction false} SplitEncode(ids: seq<nat>)
    ensures Split(Encode(ids), ' ') == Numerals(ids) + [""]
    decreases |ids|
  {
    if ids != [] {
      SplitEncode(ids[1..]);
      var digits := NatToString(ids[0]);
      assert forall i :: 0 <= i < |digits| ==> digits[i] != ' ';
      assert Encode(ids) == digits + [' '] + Encode(ids[1..]);
      SplitAfterPiece(digits, Encode(ids[1..]), ' ');
      assert Numerals(ids) == [digits] + Numerals(ids[1..]);
    }
  }

  lemma {:induction false} ParseNumerals(ids: seq<nat>)
    ensures ParseAll(Numerals(ids)) == Some(ids)
    decreases |ids|
  {
    if ids != [] {
      var n := |ids|;
      var init := ids[..n - 1];
      var pieces := Numerals(ids);
      assert pieces[..n - 1] == Numerals(init);
      ParseNumerals(init);
      assert ParseInt(pieces[n - 1]) == Some(ids[n - 1] as int) by {
        ParseIntToString(ids[n - 1]);
      }
      assert init + [ids[n - 1]] == ids;
    }
  }

  /** Round trip: the index view reads back exactly the IDs that were
      appended, in the order they were appended. */
  lemma DecodeEncode(ids: seq<nat>)
    ensures Decode(Encode(ids)) == Success(ids)
  {
    SplitEncode(ids);
    var pieces := Numerals(ids) + [""];
    assert forall i :: 0 <= i < |ids| ==> Numerals(ids)[i] != "";
    assert pieces[|ids|] == "";
    assert pieces[..|ids|] == Numerals(ids);
    RemoveFirstAt(pieces, |ids|);
    assert pieces[..|ids|] + pieces[|ids| + 1..] == Numerals(ids);
    ParseNumerals(ids);
  }

  /** No empty piece arises from a non-empty string that neither starts nor
      ends with the separator and never holds two separators in a row. */
  lemma {:induction false} NoEmptyPieceIn(s: string, sep: char)
    requires s != [] && s[0] != sep && s[|s| - 1] != sep
    requires forall i :: 0 <= i < |s| - 1 ==> !(s[i] == sep && s[i + 1] == sep)
    ensures "" !in Split(s, sep)
    decreases |s|
  {
    var t := s[1..];
    assert s == [s[0]] + t;
    SplitCons(s[0], t, sep);
    var rest := Split(t, sep);
    if t == [] {
      assert rest[1..] == [];
    } else if t[0] != sep {
      NoEmptyPieceIn(t, sep);
    } else {
      var u := t[1..];
      assert u != [] && u[0] == s[2];
      assert t == [sep] + u;
      assert rest == [""] + Split(u, sep);
      NoEmptyPieceIn(u, sep);
      assert rest[1..] == Split(u, sep);
    }
  }

  /** The error case: such a string makes `remove("")` raise. */
  lemma DecodeWithoutEmptyPiece(s: string)
    requires s != [] && s[0] != ' ' && s[|s| - 1] != ' '
    requires forall i :: 0 <= i < |s| - 1 ==> !(s[i] == ' ' && s[i + 1] == ' ')
    ensures Decode(s) == Failure(NoEmptyPiece)
  {
    NoEmptyPieceIn(s, ' ');
  }
}
