/**
 * ClusterBoostedLabelMakerFactory (labels/makers/ClusterBoostedLabelMakerFactory.java):
 * the identity and default options of the "adjacent words" label maker, and
 * the text form "maxWords,clusterBonus" in which its options are saved.
 *
 * `String.split(",")` and `Integer.parseInt` are modelled as Java defines
 * them: split drops trailing empty fields and returns the whole string when
 * it holds no comma; parseInt takes an optional sign, then decimal digits,
 * and fails outside the 32-bit range.
 */
module ClusterBoostedLabels {
  import opened Wrappers

  const IntMin: int := -0x8000_0000
  const IntMax: int := 0x7fff_ffff

  /** A Java int. */
  type Int32 = x: int | -0x8000_0000 <= x <= 0x7fff_ffff

  /** ClusterBoostedOptions: constructed from, and holding, its two arguments. */
  datatype ClusterBoostedOptions = ClusterBoostedOptions(maxWords: Int32, clusterBonus: Int32)

  const Id: string := "clusterBoosted"

  function GetId(): (r: string)
    ensures r == "clusterBoosted"
  {
    Id
  }

  function GetDefaultContext(): (o: ClusterBoostedOptions)
    ensures o.maxWords == 4 && o.clusterBonus == 8
    ensures SerializeContext(o) == "4,8"
  {
    ClusterBoostedOptions(4, 8)
  }

  // ---------------------------------------------------------------------
  // Integer.toString and Integer.parseInt

  predicate IsDigit(c: char)
  {
    '0' <= c <= '9'
  }

  predicate AllDigits(s: string)
  {
    forall i :: 0 <= i < |s| ==> IsDigit(s[i])
  }

  function DigitChar(d: nat): (c: char)
    requires d < 10
    ensures IsDigit(c) && c as int - '0' as int == d
  {
    ('0' as int + d) as char
  }

  /** Decimal digits of n, without leading zeros. */
  function NatToString(n: nat): (s: string)
    ensures |s| >= 1 && AllDigits(s)
    ensures |s| > 1 ==> s[0] != '0'
  {
    if n < 10 then [DigitChar(n)] else NatToString(n / 10) + [DigitChar(n % 10)]
  }

  /** Integer.toString: a minus sign for negative values, then the digits of the magnitude. */
  function IntToString(x: int): (s: string)
    ensures |s| >= 1 && ',' !in s
    ensures x < 0 <==> s[0] == '-'
  {
    if x < 0 then "-" + NatToString(-x) else NatToString(x)
  }

  /** The value of a string of decimal digits. */
  function DigitsValue(s: string): nat
    requires AllDigits(s)
  {
    if s == [] then 0 else DigitsValue(s[..|s| - 1]) * 10 + (s[|s| - 1] as int - '0' as int)
  }

  /** Integer.parseInt(s): optional '+' or '-', at least one digit, within the int range. */
  function ParseInt(s: string): (r: Option<Int32>)
    ensures r.Some? ==> s != [] && ',' !in s
  {
    if s == [] then None
    else
      var signed := s[0] == '-' || s[0] == '+';
      var digits := if signed then s[1..] else s;
      if digits == [] || !AllDigits(digits) then None
      else
        var magnitude: int := DigitsValue(digits);
        var value := if s[0] == '-' then -magnitude else magnitude;
        if IntMin <= value <= IntMax then Some(value) else None
  }

  lemma {:induction false} DigitsRoundTrip(n: nat)
    ensures DigitsValue(NatToString(n)) == n
  {
    if n >= 10 {
      var s := NatToString(n);
      DigitsRoundTrip(n / 10);
      assert s[..|s| - 1] == NatToString(n / 10);
    }
  }

  /** parseInt reads back exactly what toString wrote, for every int. */
  lemma ParseIntRoundTrip(x: Int32)
    ensures ParseInt(IntToString(x)) == Some(x)
  {
    var s := IntToString(x);
    var m: int := x;
    if m < 0 {
      assert s[1..] == NatToString(-m);
      DigitsRoundTrip(-m);
    } else {
      DigitsRoundTrip(x);
    }
  }

  // ---------------------------------------------------------------------
  // String.split(",")

  /** Every field between commas, empty ones included. */
  function Fields(s: string): (r: seq<string>)
    ensures |r| >= 1
    ensures forall f :: f in r ==> ',' !in f
  {
    if s == [] then [""]
    else
      var rest := Fields(s[1..]);
      if s[0] == ',' then [""] + rest
      else
        assert rest[0] in rest;
        [[s[0]] + rest[0]] + rest[1..]
  }

  /** Removes the empty fields at the end. */
  function DropTrailingEmpty(fs: seq<string>): (r: seq<string>)
    ensures |r| <= |fs| && r == fs[..|r|]
    ensures r == [] || r[|r| - 1] != ""
    ensures forall k :: |r| <= k < |fs| ==> fs[k] == ""
  {
    if fs == [] || fs[|fs| - 1] != "" then fs else DropTrailingEmpty(fs[..|fs| - 1])
  }

  /** s.split(","): the string itself when it holds no comma, else the fields without trailing empty ones. */
  function Split(s: string): (r: seq<string>)
    ensures forall f :: f in r ==> ',' !in f
    ensures ',' in s ==> r == [] || r[|r| - 1] != ""
  {
    if ',' !in s then [s] else DropTrailingEmpty(Fields(s))
  }

  /** Fields joined back together with commas. */
  function Join(fs: seq<string>): string
  {
    if fs == [] then "" else if |fs| == 1 then fs[0] else fs[0] + "," + Join(fs[1..])
  }

  lemma {:induction false} FieldsPrefix(a: string, t: string)
    requires ',' !in a
    ensures Fields(a + t) == [a + Fields(t)[0]] + Fields(t)[1..]
  {
    if a != [] {
      var s := a + t;
      assert s[0] == a[0] && s[1..] == a[1..] + t;
      FieldsPrefix(a[1..], t);
      var rest := Fields(s[1..]);
      assert rest == [a[1..] + Fields(t)[0]] + Fields(t)[1..];
      assert Fields(s) == [[a[0]] + rest[0]] + rest[1..];
      assert rest[1..] == Fields(t)[1..];
      assert [a[0]] + (a[1..] + Fields(t)[0]) == a + Fields(t)[0];
    } else {
      assert a + t == t;
      assert a + Fields(t)[0] == Fields(t)[0];
      assert Fields(t) == [Fields(t)[0]] + Fields(t)[1..];
    }
  }

  lemma FieldsOfPair(a: string, b: string)
    requires ',' !in a && ',' !in b
    ensures Fields(a + "," + b) == [a, b]
  {
    FieldsPrefix(b, "");
    assert b + "" == b;
    assert Fields(b) == [b];
    assert ("," + b)[1..] == b;
    assert Fields("," + b) == ["", b];
    FieldsPrefix(a, "," + b);
    assert a + "," + b == a + ("," + b);
    assert a + "" == a;
  }

  lemma JoinCons(a: string, fs: seq<string>)
    ensures Join([a] + fs) == if fs == [] then a else a + "," + Join(fs)
  {
    assert ([a] + fs)[1..] == fs;
  }

  lemma {:induction false} JoinFields(s: string)
    ensures Join(Fields(s)) == s
  {
    if s != [] {
      var rest := Fields(s[1..]);
      JoinFields(s[1..]);
      if s[0] == ',' {
        JoinCons("", rest);
        assert s == "," + s[1..];
      } else {
        assert rest == [rest[0]] + rest[1..];
        JoinCons(rest[0], rest[1..]);
        JoinCons([s[0]] + rest[0], rest[1..]);
        assert s == [s[0]] + s[1..];
      }
    }
  }

  /** A run of k commas. */
  function Commas(k: nat): string
  {
    if k == 0 then "" else "," + Commas(k - 1)
  }

  lemma {:induction false} JoinTrailingEmpty(fs: seq<string>, k: nat)
    requires |fs| >= 1
    ensures Join(fs + seq(k, _ => "")) == Join(fs) + Commas(k)
    decreases k, |fs|
  {
    if |fs| == 1 {
      if k > 0 {
        var tail: seq<string> := seq(k, _ => "");
        assert (fs + tail)[1..] == tail;
        assert tail == [""] + seq(k - 1, _ => "");
        JoinTrailingEmpty([""], k - 1);
        assert [""] + seq(k - 1, _ => "") == tail;
        assert Join([""]) == "";
      } else {
        assert fs + seq(k, _ => "") == fs;
      }
    } else {
      JoinTrailingEmpty(fs[1..], k);
      assert (fs + seq(k, _ => ""))[1..] == fs[1..] + seq(k, _ => "");
    }
  }

  // ---------------------------------------------------------------------
  // The saved form of the options

  /** The options as "maxWords,clusterBonus": each field is the int's decimal text, and the comma is the only one. */
  function SerializeContext(o: ClusterBoostedOptions): (r: string)
    ensures var a, b := IntToString(o.maxWords), IntToString(o.clusterBonus);
      r == a + "," + b && ',' !in a && ',' !in b
  {
    IntToString(o.maxWords) + "," + IntToString(o.clusterBonus)
  }

  function DeserializeContext(s: string): (r: Option<ClusterBoostedOptions>)
    ensures r.Some? ==> ',' in s
  {
    var args := Split(s);
    if |args| != 2 then None
    else
      match (ParseInt(args[0]), ParseInt(args[1]))
      case (Some(maxWords), Some(boost)) => Some(ClusterBoostedOptions(maxWords, boost))
      case _ => None
  }

  /** Deserializing what was serialized gives back the same options, for every pair of ints. */
  lemma RoundTrip(o: ClusterBoostedOptions)
    ensures DeserializeContext(SerializeContext(o)) == Some(o)
  {
    var a, b := IntToString(o.maxWords), IntToString(o.clusterBonus);
    var s := a + "," + b;
    FieldsOfPair(a, b);
    assert s[|a|] == ',';
    assert Split(s) == [a, b];
    ParseIntRoundTrip(o.maxWords);
    ParseIntRoundTrip(o.clusterBonus);
  }

  /** The fields of a run of k commas: k + 1 empty ones. */
  lemma {:induction false} FieldsOfCommas(k: nat)
    ensures Fields(Commas(k)) == seq(k + 1, _ => "")
  {
    if k > 0 {
      FieldsOfCommas(k - 1);
      assert Commas(k)[1..] == Commas(k - 1);
      assert seq(k + 1, _ => "") == [""] + seq(k, _ => "");
    }
  }

  /** Dropping trailing empty fields removes exactly the empty ones appended after a non-empty last field. */
  lemma {:induction false} DropAppendedEmpty(fs: seq<string>, k: nat)
    requires fs != [] && fs[|fs| - 1] != ""
    ensures DropTrailingEmpty(fs + seq(k, _ => "")) == fs
  {
    if k > 0 {
      var longer := fs + seq(k, _ => "");
      assert longer[|longer| - 1] == "";
      assert longer[..|longer| - 1] == fs + seq(k - 1, _ => "");
      DropAppendedEmpty(fs, k - 1);
    } else {
      assert fs + seq(k, _ => "") == fs;
    }
  }

  /** The fields of a comma-free b followed by k commas: b, then k empty ones. */
  lemma FieldsOfFieldAndCommas(b: string, k: nat)
    requires ',' !in b
    ensures Fields(b + Commas(k)) == [b] + seq(k, _ => "")
  {
    FieldsOfCommas(k);
    FieldsPrefix(b, Commas(k));
    assert Fields(Commas(k))[1..] == seq(k, _ => "");
    assert b + "" == b;
  }

  /** A leading comma closes an empty first field. */
  lemma FieldsAfterComma(t: string)
    ensures Fields("," + t) == [""] + Fields(t)
  {
    assert ("," + t)[1..] == t;
  }

  /** The fields of "a,b" followed by k commas: a, b, then k empty ones. */
  lemma FieldsOfShaped(a: string, b: string, k: nat)
    requires ',' !in a && ',' !in b
    ensures Fields(a + "," + b + Commas(k)) == [a, b] + seq(k, _ => "")
  {
    var t := b + Commas(k);
    FieldsOfFieldAndCommas(b, k);
    FieldsAfterComma(t);
    FieldsPrefix(a, "," + t);
    assert a + "," + b + Commas(k) == a + ("," + t);
    assert a + "" == a;
  }

  /**
   * Two comma-free fields that parse, separated by one comma and followed by
   * any number of commas (which split drops), deserialize to the options they
   * spell.
   */
  lemma AcceptedIfShaped(a: string, b: string, k: nat)
    requires ParseInt(a).Some? && ParseInt(b).Some?
    ensures DeserializeContext(a + "," + b + Commas(k)) ==
            Some(ClusterBoostedOptions(ParseInt(a).value, ParseInt(b).value))
  {
    var s := a + "," + b + Commas(k);
    FieldsOfShaped(a, b, k);
    assert s[|a|] == ',';
    DropAppendedEmpty([a, b], k);
    assert Split(s) == [a, b];
  }

  /**
   * Only such strings deserialize: two comma-free fields that parse, the
   * second non-empty, separated by one comma and followed by any number of
   * commas. `AcceptedIfShaped` is the converse.
   */
  lemma AcceptedShape(s: string)
    requires DeserializeContext(s).Some?
    ensures exists a, b, k: nat ::
      s == a + "," + b + Commas(k) && b != "" &&
      ParseInt(a) == Some(DeserializeContext(s).value.maxWords) &&
      ParseInt(b) == Some(DeserializeContext(s).value.clusterBonus)
  {
    var fs := Fields(s);
    var args := Split(s);
    var a, b := args[0], args[1];
    var k := |fs| - 2;
    assert fs[..2] == [a, b];
    assert fs == [a, b] + seq(k, _ => "");
    JoinFields(s);
    JoinTrailingEmpty([a, b], k);
    assert Join([a, b]) == a + "," + b;
    assert s == a + "," + b + Commas(k);
  }

  /** Java's split drops the empty last field, so "4," has one field and is refused. */
  lemma TrailingEmptyFieldRefused()
    ensures Split("4,") == ["4"]
    ensures DeserializeContext("4,") == None
  {
    assert Fields("") == [""];
    assert Fields(",") == ["", ""] by {
      assert ","[1..] == "";
    }
    assert Fields("4,") == ["4", ""] by {
      assert "4,"[1..] == ",";
      assert "4,"[0] == '4';
      assert ['4'] + "" == "4";
    }
  }

  /** An empty first field does not parse. */
  lemma EmptyLeadingFieldRefused()
    ensures DeserializeContext(",8") == None
  {
    assert Fields("") == [""];
    assert Fields("8") == ["8"] by {
      assert "8"[1..] == "";
      assert "8"[0] == '8';
      assert ['8'] + "" == "8";
    }
    assert Fields(",8") == ["", "8"] by {
      assert ",8"[1..] == "8";
    }
  }
}
