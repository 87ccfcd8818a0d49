/** `StringMethods.makePrimaryKey`: the grouping key built from the values of
    some fields of a record, joined by a fixed separator. */
module StringMethods {
  import opened Wrappers
  import opened JsValue

  /** A record: its own properties by name. */
  type Record = map<string, Value>

  const Separator: string := "_XX_"

  /** `obj[g]`: a missing property reads as `undefined`. */
  function Property(obj: Record, g: string): Value {
    if g in obj then obj[g] else Undefined
  }

  /** The piece pushed for the field `g`: `obj[g] || ' '`. */
  function Piece(obj: Record, g: string): (r: Value)
    ensures Truthy(r)
    ensures Truthy(Property(obj, g)) ==> r == Property(obj, g)
    ensures !Truthy(Property(obj, g)) ==> r == Str(" ")
  {
    Or(Property(obj, g), Str(" "))
  }

  /** The pieces of all fields of `groupBy`, in the order of `groupBy`. */
  function Pieces(obj: Record, groupBy: seq<string>): (r: seq<Value>)
    ensures |r| == |groupBy|
    ensures forall i :: 0 <= i < |r| ==> r[i] == Piece(obj, groupBy[i])
  {
    seq(|groupBy|, i requires 0 <= i < |groupBy| => Piece(obj, groupBy[i]))
  }

  /** How `join` converts one element: `null` and `undefined` become empty. */
  function ElementString(v: Value): (r: string)
    ensures Truthy(v) ==> |r| >= 1
  {
    if v.Undefined? || v.Null? then "" else ToJsString(v)
  }

  function ElementStrings(vs: seq<Value>): (r: seq<string>)
    ensures |r| == |vs|
    ensures forall i :: 0 <= i < |r| ==> r[i] == ElementString(vs[i])
  {
    seq(|vs|, i requires 0 <= i < |vs| => ElementString(vs[i]))
  }

  /** `ps.join(sep)`: the strings with `sep` between each two neighbours. */
  function Join(ps: seq<string>, sep: string): string
    decreases |ps|
  {
    if |ps| == 0 then ""
    else if |ps| == 1 then ps[0]
    else Join(ps[..|ps| - 1], sep) + sep + ps[|ps| - 1]
  }

  /** Total length of the strings of `ps`. */
  function TotalLength(ps: seq<string>): nat
    decreases |ps|
  {
    if |ps| == 0 then 0 else TotalLength(ps[..|ps| - 1]) + |ps[|ps| - 1]|
  }

  /** Joining adds exactly one separator between each two neighbours: `k`
      strings give `k - 1` separators and nothing else. */
  lemma {:induction false} JoinLength(ps: seq<string>, sep: string)
    requires |ps| >= 1
    ensures |Join(ps, sep)| == TotalLength(ps) + (|ps| - 1) * |sep|
    decreases |ps|
  {
    if |ps| > 1 {
      JoinLength(ps[..|ps| - 1], sep);
    } else {
      assert ps[..0] == [];
    }
  }

  /** The first string comes first, followed by a separator and the join of
      the rest. */
  lemma {:induction false} JoinCons(p: string, ps: seq<string>, sep: string)
    requires |ps| >= 1
    ensures Join([p] + ps, sep) == p + sep + Join(ps, sep)
    decreases |ps|
  {
    var s := [p] + ps;
    if |ps| == 1 {
      assert s[..1] == [p];
    } else {
      assert s[..|s| - 1] == [p] + ps[..|ps| - 1];
      JoinCons(p, ps[..|ps| - 1], sep);
    }
  }

  /** The group-by list, `[]` when the argument is omitted. */
  function GroupFields(groupBy: Option<seq<string>>): seq<string> {
    if groupBy.Some? then groupBy.value else []
  }

  /** The primary key of `obj` for the fields `groupBy`: the pieces of the
      fields in order, converted to strings and joined by `"_XX_"`. */
  method MakePrimaryKey(obj: Record, groupBy: Option<seq<string>>) returns (key: string)
    ensures key == Join(ElementStrings(Pieces(obj, GroupFields(groupBy))), Separator)
    ensures GroupFields(groupBy) == [] ==> key == ""
    ensures |GroupFields(groupBy)| == 1 ==> key == ToJsString(Piece(obj, GroupFields(groupBy)[0]))
    ensures |GroupFields(groupBy)| >= 1 ==>
      |key| == TotalLength(ElementStrings(Pieces(obj, GroupFields(groupBy)))) + (|GroupFields(groupBy)| - 1) * |Separator|
  {
    var fields := GroupFields(groupBy);
    var pieces: seq<Value> := [];
    var i := 0;
    while i < |fields|
      invariant 0 <= i <= |fields|
      invariant pieces == Pieces(obj, fields)[..i]
    {
      var g := fields[i];
      var v := if g in obj then obj[g] else Undefined;
      pieces := pieces + [if Truthy(v) then v else Str(" ")];
      i := i + 1;
    }
    assert pieces == Pieces(obj, fields);
    key := Join(ElementStrings(pieces), Separator);
    if |fields| >= 1 {
      JoinLength(ElementStrings(pieces), Separator);
    }
  }

  /** The key of a non-empty field list is the first piece, one separator and
      the key of the remaining fields. */
  lemma PrimaryKeyCons(obj: Record, g: string, rest: seq<string>)
    requires |rest| >= 1
    ensures Join(ElementStrings(Pieces(obj, [g] + rest)), Separator)
         == ElementString(Piece(obj, g)) + Separator + Join(ElementStrings(Pieces(obj, rest)), Separator)
  {
    var whole := ElementStrings(Pieces(obj, [g] + rest));
    var tail := ElementStrings(Pieces(obj, rest));
    assert whole == [ElementString(Piece(obj, g))] + tail by {
      forall i | 1 <= i < |whole| ensures whole[i] == tail[i - 1] {
        assert ([g] + rest)[i] == rest[i - 1];
      }
    }
    JoinCons(ElementString(Piece(obj, g)), tail, Separator);
  }
}
