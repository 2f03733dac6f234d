/** `urllib.parse.parse_qs` with its defaults: fields separated by '&', each
    split at its first '=', fields without '=' or with a blank value dropped
    (`keep_blank_values=False`), values of a repeated name kept in order of
    appearance. */
module QueryString {
  import opened Wrappers
  import opened Text

  /** The decoding applied to names and values: '+' stands for a space.
      Percent-escapes are kept as written. */
  function Unquote(s: string): (r: string)
    ensures |r| == |s| && '+' !in r
    ensures forall k :: 0 <= k < |s| ==> r[k] == if s[k] == '+' then ' ' else s[k]
    ensures '+' !in s ==> r == s
  {
    ReplaceChar(s, '+', ' ')
  }

  /** The pair one field contributes: none for an empty field, a field
      without '=', or a field whose value is blank. */
  function ParseField(field: string): (r: seq<(string, string)>)
  {
    if field == "" then []
    else match Cut(field, '=')
      case None => []
      case Some((name, value)) => if value == "" then [] else [(Unquote(name), Unquote(value))]
  }

  function ParseFields(fields: seq<string>): (r: seq<(string, string)>)
  {
    if |fields| == 0 then [] else ParseField(fields[0]) + ParseFields(fields[1..])
  }

  /** `parse_qsl(qs)`: the kept (name, value) pairs in order. */
  function ParseQsl(qs: string): (r: seq<(string, string)>)
  {
    ParseFields(Split(qs, '&'))
  }

  /** The values paired with `name`, in order. */
  function ValuesOf(pairs: seq<(string, string)>, name: string): (r: seq<string>)
    ensures |r| > 0 <==> exists i :: 0 <= i < |pairs| && pairs[i].0 == name
    ensures |r| <= |pairs|
  {
    if |pairs| == 0 then []
    else
      var rest := ValuesOf(pairs[1..], name);
      assert forall i :: 1 <= i < |pairs| ==> pairs[i] == pairs[1..][i - 1];
      (if pairs[0].0 == name then [pairs[0].1] else []) + rest
  }

  function Names(pairs: seq<(string, string)>): (r: set<string>)
  {
    set i | 0 <= i < |pairs| :: pairs[i].0
  }

  /** `parse_qs(qs)`: the names carried by some `&`-field of `qs`, each
      mapped to the decoded values of the fields carrying it, in the order
      the fields appear. */
  function ParseQs(qs: string): (m: map<string, seq<string>>)
    ensures forall name :: name in m <==> CarriedValues(Split(qs, '&'), name) != []
    ensures forall name :: name in m ==> m[name] == CarriedValues(Split(qs, '&'), name)
  {
    var pairs := ParseQsl(qs);
    assert forall name :: name in Names(pairs) <==> |ValuesOf(pairs, name)| > 0 by {
      forall name ensures name in Names(pairs) <==> |ValuesOf(pairs, name)| > 0 {
        if |ValuesOf(pairs, name)| > 0 {
          var i :| 0 <= i < |pairs| && pairs[i].0 == name;
        }
      }
    }
    forall name ensures ValuesOf(pairs, name) == CarriedValues(Split(qs, '&'), name) {
      ValuesAreCarried(Split(qs, '&'), name);
    }
    map name | name in Names(pairs) :: ValuesOf(pairs, name)
  }

  /** `parse_qs(qs).get(name, [None])[0]`: the value of the first field of
      `qs` that carries `name`, or None when no field does. */
  function GetFirst(qs: string, name: string): (r: Option<string>)
    ensures var fields := Split(qs, '&');
      && (r.None? <==> FirstCarrier(fields, name).None?)
      && (r.Some? ==> r.value == FieldValue(fields[FirstCarrier(fields, name).value]))
  {
    var m := ParseQs(qs);
    FirstCarried(Split(qs, '&'), name);
    if name in m then Some(m[name][0]) else None
  }

  /** Reference definition: the decoded values of the fields that carry
      `name`, in field order. */
  function CarriedValues(fields: seq<string>, name: string): (r: seq<string>)
    ensures forall k :: 0 <= k < |r| ==> r[k] != ""
  {
    if |fields| == 0 then []
    else
      CarriedValueNonEmpty(fields[0], name);
      (if Carries(fields[0], name) then [FieldValue(fields[0])] else []) + CarriedValues(fields[1..], name)
  }

  /** A carried value is never blank: `parse_qsl` drops blank raw values and
      decoding keeps the length. */
  lemma CarriedValueNonEmpty(field: string, name: string)
    ensures Carries(field, name) ==> FieldValue(field) != ""
  {
  }

  /** `field` is `name=value` with a non-blank value, once decoded. */
  predicate Carries(field: string, name: string)
  {
    match Cut(field, '=')
    case None => false
    case Some((n, v)) => v != "" && Unquote(n) == name
  }

  /** The decoded text after the first '=' of `field`. */
  function FieldValue(field: string): (r: string)
  {
    match Cut(field, '=')
    case None => ""
    case Some((_, v)) => Unquote(v)
  }

  /** The index of the first field that carries `name`. */
  function FirstCarrier(fields: seq<string>, name: string): (r: Option<nat>)
    ensures r.Some? ==> r.value < |fields| && Carries(fields[r.value], name)
    ensures r.Some? ==> forall j :: 0 <= j < r.value ==> !Carries(fields[j], name)
    ensures r.None? <==> forall j :: 0 <= j < |fields| ==> !Carries(fields[j], name)
  {
    if |fields| == 0 then None
    else if Carries(fields[0], name) then Some(0)
    else
      var rest := fields[1..];
      assert forall j :: 1 <= j < |fields| ==> fields[j] == rest[j - 1];
      match FirstCarrier(rest, name)
      case None =>
        assert forall j :: 0 <= j < |fields| ==> !Carries(fields[j], name) by {
          forall j | 0 <= j < |fields| ensures !Carries(fields[j], name) {
            if j > 0 {
              assert !Carries(rest[j - 1], name);
            }
          }
        }
        None
      case Some(i) =>
        assert forall j :: 0 <= j < i + 1 ==> !Carries(fields[j], name) by {
          forall j | 0 <= j < i + 1 ensures !Carries(fields[j], name) {
            if j > 0 {
              assert !Carries(rest[j - 1], name);
            }
          }
        }
        assert fields[i + 1] == rest[i];
        Some(i + 1)
  }

  lemma ParseFieldNamed(field: string, name: string)
    ensures ValuesOf(ParseField(field), name) == if Carries(field, name) then [FieldValue(field)] else []
  {
  }

  lemma {:induction false} ValuesOfConcat(a: seq<(string, string)>, b: seq<(string, string)>, name: string)
    ensures ValuesOf(a + b, name) == ValuesOf(a, name) + ValuesOf(b, name)
  {
    if |a| > 0 {
      assert (a + b)[1..] == a[1..] + b;
      ValuesOfConcat(a[1..], b, name);
    } else {
      assert a + b == b;
    }
  }

  /** The values kept for `name` from a non-empty field list: the first
      field's contribution, then the rest's. */
  lemma ValuesOfFieldsCons(fields: seq<string>, name: string)
    requires |fields| > 0
    ensures ValuesOf(ParseFields(fields), name)
            == (if Carries(fields[0], name) then [FieldValue(fields[0])] else []) + ValuesOf(ParseFields(fields[1..]), name)
  {
    ValuesOfConcat(ParseField(fields[0]), ParseFields(fields[1..]), name);
    ParseFieldNamed(fields[0], name);
  }

  /** The values kept for `name` are those of the fields carrying it, so the
      first of them is the first carrying field's value. */
  lemma FirstValueOfFields(fields: seq<string>, name: string)
    ensures FirstCarrier(fields, name).None? <==> ValuesOf(ParseFields(fields), name) == []
    ensures FirstCarrier(fields, name).Some? ==>
      ValuesOf(ParseFields(fields), name)[0] == FieldValue(fields[FirstCarrier(fields, name).value])
  {
    ValuesAreCarried(fields, name);
    FirstCarried(fields, name);
  }

  /** The values `parse_qsl` keeps for `name` are exactly the values of
      the fields carrying it, in field order. */
  lemma {:induction false} ValuesAreCarried(fields: seq<string>, name: string)
    ensures ValuesOf(ParseFields(fields), name) == CarriedValues(fields, name)
  {
    if |fields| > 0 {
      ValuesAreCarried(fields[1..], name);
      ValuesOfFieldsCons(fields, name);
    }
  }

  /** The first carried value is that of the first carrying field. */
  lemma {:induction false} FirstCarried(fields: seq<string>, name: string)
    ensures FirstCarrier(fields, name).None? <==> CarriedValues(fields, name) == []
    ensures FirstCarrier(fields, name).Some? ==>
      CarriedValues(fields, name)[0] == FieldValue(fields[FirstCarrier(fields, name).value])
  {
    if |fields| > 0 {
      var rest := fields[1..];
      FirstCarried(rest, name);
      assert CarriedValues(fields, name)
        == (if Carries(fields[0], name) then [FieldValue(fields[0])] else []) + CarriedValues(rest, name);
      if !Carries(fields[0], name) {
        match FirstCarrier(rest, name)
        case None =>
        case Some(i) =>
          assert fields[i + 1] == rest[i];
      }
    }
  }

  /** A query that opens with `name=x` yields `x` for that name, whatever
      follows: the first occurrence wins. */
  lemma LeadingField(name: string, x: string, tail: string)
    requires '=' !in name && '&' !in name && '+' !in name
    requires x != "" && '&' !in x
    requires tail == "" || tail[0] == '&'
    ensures GetFirst(name + "=" + x + tail, name) == Some(Unquote(x))
  {
    var field := name + "=" + x;
    var qs := field + tail;
    assert '&' !in field;
    var fields := Split(qs, '&');
    if tail == "" {
      assert Cut(qs, '&').None?;
    } else {
      assert qs == field + "&" + tail[1..];
      SplitCons(field, '&', tail[1..]);
    }
    assert fields[0] == field;
    CutAt(name, '=', x);
    assert Carries(fields[0], name);
    assert FirstCarrier(fields, name) == Some(0);
  }
}
