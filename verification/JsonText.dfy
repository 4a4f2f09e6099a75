/** Json::FastWriter: the compact text of a value, and the class that writes it. */
module JsonText {
  import opened JsonValue
  import opened JsonNumbers
  import opened JsonStrings
  import opened Sequences

  // ---------- The text ----------

  function BoolText(b: bool): string {
    if b then "true" else "false"
  }

  /** The text of a value with `colon` between a name and its value. */
  function Text(v: Value, colon: string): string
    decreases v, 0
  {
    match v
    case Null => "null"
    case Int(n) => IntText(n)
    case UInt(u) => IntText(u)
    case Real(text) => text
    case NoStr => ""
    case Str(s) => Quote(s)
    case Bool(b) => BoolText(b)
    case Arr(elems) => "[" + ItemsText(elems, true, colon)
    case Obj(members) => "{" + MembersText(members, true, colon)
  }

  function Comma(first: bool): string {
    if first then "" else ","
  }

  /** The text of the elements that remain and of the closing bracket. */
  function ItemsText(elems: seq<Value>, first: bool, colon: string): string
    decreases elems, 0
  {
    if elems == [] then "]"
    else Comma(first) + Text(elems[0], colon) + ItemsText(elems[1..], false, colon)
  }

  function MembersText(members: seq<Member>, first: bool, colon: string): string
    decreases members, 0
  {
    if members == [] then "}"
    else Comma(first) + MemberText(members[0], colon) + MembersText(members[1..], false, colon)
  }

  function MemberText(m: Member, colon: string): string
    decreases m, 1
  {
    Quote(m.name) + colon + Text(m.value, colon)
  }

  // ---------- The writer ----------

  method ValueToStringSigned(value: LargestInt) returns (r: string)
    ensures r == IntText(value)
  {
    var buffer, current := SignedToString(value);
    r := CString(buffer[current..]);
  }

  method ValueToStringUnsigned(value: LargestUInt) returns (r: string)
    ensures r == IntText(value)
  {
    var buffer, current := UnsignedToString(value as UInt64);
    r := CString(buffer[current..]);
  }

  class FastWriter {
    var document: string
    var yamlCompatibilityEnabled: bool

    constructor ()
      ensures !yamlCompatibilityEnabled
    {
      document, yamlCompatibilityEnabled := "", false;
    }

    method EnableYamlCompatibility()
      modifies this`yamlCompatibilityEnabled
      ensures yamlCompatibilityEnabled
    {
      yamlCompatibilityEnabled := true;
    }

    function Colon(): string
      reads this`yamlCompatibilityEnabled
    {
      if yamlCompatibilityEnabled then ": " else ":"
    }

    method Write(root: Value) returns (r: string)
      modifies this`document
      ensures r == document == Text(root, if yamlCompatibilityEnabled then ": " else ":") + "\n"
    {
      document := "";
      WriteValue(root);
      assert "" + Text(root, Colon()) == Text(root, Colon());
      document := document + "\n";
      return document;
    }

    method WriteValue(value: Value)
      modifies this`document
      ensures document == old(document) + Text(value, Colon())
      decreases value, 2
    {
      match value {
        case Null => document := document + "null";
        case Int(n) =>
          var s := ValueToStringSigned(n);
          document := document + s;
        case UInt(u) =>
          var s := ValueToStringUnsigned(u);
          document := document + s;
        case Real(text) => document := document + text;
        case NoStr =>
          assert document + "" == document;
        case Str(s) =>
          var quoted := ValueToQuotedStringN(s);
          document := document + quoted;
        case Bool(b) => document := document + if b then "true" else "false";
        case Arr(elems) => WriteArray(elems);
        case Obj(members) => WriteObject(members);
      }
    }

    method WriteArray(elems: seq<Value>)
      modifies this`document
      ensures document == old(document) + Text(Arr(elems), Colon())
      decreases elems, 1
    {
      hide Text, ItemsText;
      ArrayText(elems, Colon());
      document := document + "[";
      for index := 0 to |elems|
        invariant document + ItemsText(elems[index..], index == 0, Colon()) == old(document) + Text(Arr(elems), Colon())
      {
        ghost var before := document;
        if index > 0 {
          document := document + ",";
        }
        ItemsFrom(elems, index, Colon());
        assert document == before + Comma(index == 0);
        WriteValue(elems[index]);
        Append3(before, Comma(index == 0), Text(elems[index], Colon()), ItemsText(elems[index + 1..], false, Colon()));
      }
      ItemsFrom(elems, |elems|, Colon());
      document := document + "]";
    }

    method WriteMember(m: Member)
      modifies this`document
      ensures document == old(document) + MemberText(m, Colon())
      decreases m, 3
    {
      var quoted := ValueToQuotedStringN(m.name);
      document := document + quoted;
      document := document + if yamlCompatibilityEnabled then ": " else ":";
      WriteValue(m.value);
      Append3(old(document), Quote(m.name), Colon(), Text(m.value, Colon()));
    }

    method WriteObject(members: seq<Member>)
      modifies this`document
      ensures document == old(document) + Text(Obj(members), Colon())
      decreases members, 1
    {
      hide Text, MembersText, MemberText;
      ObjectText(members, Colon());
      document := document + "{";
      for index := 0 to |members|
        invariant document + MembersText(members[index..], index == 0, Colon())
            == old(document) + Text(Obj(members), Colon())
      {
        ghost var before := document;
        if index > 0 {
          document := document + ",";
        }
        MembersFrom(members, index, Colon());
        assert document == before + Comma(index == 0);
        WriteMember(members[index]);
        Append3(before, Comma(index == 0), MemberText(members[index], Colon()),
                MembersText(members[index + 1..], false, Colon()));
      }
      MembersFrom(members, |members|, Colon());
      document := document + "}";
    }
  }

  lemma ArrayText(elems: seq<Value>, colon: string)
    ensures Text(Arr(elems), colon) == "[" + ItemsText(elems[0..], true, colon)
  {
    assert elems[0..] == elems;
  }

  lemma ObjectText(members: seq<Member>, colon: string)
    ensures Text(Obj(members), colon) == "{" + MembersText(members[0..], true, colon)
  {
    assert members[0..] == members;
  }

  /** What remains to be written from the i-th element on. */
  lemma ItemsFrom(elems: seq<Value>, i: nat, colon: string)
    requires i <= |elems|
    ensures ItemsText(elems[i..], i == 0, colon) ==
              if i == |elems| then "]"
              else Comma(i == 0) + Text(elems[i], colon) + ItemsText(elems[i + 1..], false, colon)
  {
    if i < |elems| {
      assert elems[i..][0] == elems[i] && elems[i..][1..] == elems[i + 1..];
    }
  }

  lemma MembersFrom(members: seq<Member>, i: nat, colon: string)
    requires i <= |members|
    ensures MembersText(members[i..], i == 0, colon) ==
              if i == |members| then "}"
              else Comma(i == 0) + MemberText(members[i], colon) + MembersText(members[i + 1..], false, colon)
  {
    if i < |members| {
      assert members[i..][0] == members[i] && members[i..][1..] == members[i + 1..];
    }
  }

  lemma Append3(a: string, b: string, c: string, d: string)
    ensures a + (b + c + d) == a + b + c + d
  {
  }
}
