/** Class Json::StyledWriter. Every method is proved to write the layout of its value, in the document or
    among the child values, and to keep the indentation. */
module JsonStyledWriter {
  import opened JsonValue
  import opened JsonStrings
  import opened Sequences
  import opened JsonText
  import opened JsonStyled
  import opened JsonLayout

  /** What writeIndent adds to a document. */
  function NewLine(document: string, indentation: string): string {
    if document != "" && document[|document| - 1] == ' ' then ""
    else (if document == "" || document[|document| - 1] == '\n' then "" else "\n") + indentation
  }

  lemma NewLineBehind(document: string, c: char, depth: nat)
    requires document != "" && document[|document| - 1] == c && c != ' ' && c != '\n'
    ensures NewLine(document, Margin(depth)) == "\n" + Margin(depth)
  {
  }

  /** A closing bracket behind a value that follows a blank. */
  lemma NewLineIsBreak(before: string, last: string, depth: nat)
    requires before != "" && before[|before| - 1] == ' '
    ensures NewLine(before + last, Margin(depth)) == Break(last, depth)
  {
    hide Margin;
    var document := before + last;
    if last == "" {
      assert document == before;
    } else {
      assert document[|document| - 1] == last[|last| - 1];
    }
  }

  lemma MembersBreak(start: string, members: seq<Member>, inner: nat, depth: nat)
    requires members != []
    ensures NewLine(start + MemberLines(members, inner), Margin(depth))
         == Break(Layout(members[|members| - 1].value, inner), depth)
  {
    hide Layout, NewLine, Break, Margin, Quote;
    var n := |members| - 1;
    var m := members[n];
    var before := start + (MemberLines(members[..n], inner) + Comma(n == 0)
                           + ("\n" + Margin(inner) + Quote(CString(m.name)) + " : "));
    assert start + MemberLines(members, inner) == before + Layout(m.value, inner);
    NewLineIsBreak(before, Layout(m.value, inner), depth);
  }

  lemma ElementsBreak(start: string, elems: seq<Value>, inner: nat, depth: nat)
    requires elems != [] && inner > 0
    ensures NewLine(start + ElementLines(elems, inner), Margin(depth))
         == Break(Layout(elems[|elems| - 1], inner), depth)
  {
    hide Layout, NewLine, Break, Margin, ElementLines;
    var n := |elems| - 1;
    var front, gap := ElementLines(elems[..n], inner) + Comma(n == 0), "\n" + Margin(inner);
    assert ElementLines(elems, inner) == front + ElementLine(elems[n], inner) by { LastLine(elems, inner); }
    Regrouped(start, front, gap, Layout(elems[n], inner));
    NewLineIsBreak(start + front + gap, Layout(elems[n], inner), depth);
  }

  lemma LastLine(elems: seq<Value>, depth: nat)
    requires elems != []
    ensures var n := |elems| - 1;
            ElementLines(elems, depth) == ElementLines(elems[..n], depth) + Comma(n == 0) + ElementLine(elems[n], depth)
  {
    hide ElementLine;
  }

  lemma Regrouped(a: string, b: string, c: string, d: string)
    ensures a + (b + (c + d)) == a + b + c + d
  {
  }

  lemma ElementAdded(start: string, elems: seq<Value>, index: nat, depth: nat)
    requires index < |elems|
    ensures start + ElementLines(elems[..index], depth) + Comma(index == 0) + ElementLine(elems[index], depth)
         == start + ElementLines(elems[..index + 1], depth)
  {
    hide ElementLine;
    assert elems[..index + 1][..index] == elems[..index];
    Regroup(start, ElementLines(elems[..index], depth), Comma(index == 0), ElementLine(elems[index], depth));
  }

  lemma MemberAdded(start: string, members: seq<Member>, index: nat, depth: nat)
    requires index < |members|
    ensures start + MemberLines(members[..index], depth) + Comma(index == 0) + MemberLine(members[index], depth)
         == start + MemberLines(members[..index + 1], depth)
  {
    hide MemberLine;
    assert members[..index + 1][..index] == members[..index];
    Regroup(start, MemberLines(members[..index], depth), Comma(index == 0), MemberLine(members[index], depth));
  }

  lemma ChildAdded(start: string, elems: seq<Value>, index: nat)
    requires index < |elems|
    ensures start + Joined(elems[..index]) + (if index == 0 then "" else ", ") + Text(elems[index], ":")
         == start + Joined(elems[..index + 1])
  {
    hide Text;
    assert elems[..index + 1][..index] == elems[..index];
    Regroup(start, Joined(elems[..index]), if index == 0 then "" else ", ", Text(elems[index], ":"));
  }

  lemma Regroup(a: string, b: string, c: string, d: string)
    ensures a + b + c + d == a + (b + c + d)
  {
  }

  lemma NothingYet(start: string, depth: nat)
    ensures start + ElementLines([], depth) + Comma(true) == start
    ensures start + MemberLines([], depth) + Comma(true) == start
    ensures start + Joined([]) == start
  {
  }

  /** The closing brace of an object, and what writeIndent adds in front of it. */
  lemma ObjectCloses(before: string, members: seq<Member>, depth: nat)
    requires members != []
    ensures var document := before + "{" + MemberLines(members, depth + 1);
            document + (NewLine(document, Margin(depth)) + "}") == before + Layout(Obj(members), depth)
  {
    hide MemberLines, Break, NewLine, Margin;
    var inner, gap := MemberLines(members, depth + 1), Break(Layout(members[|members| - 1].value, depth + 1), depth);
    MembersBreak(before + "{", members, depth + 1, depth);
    assert before + "{" + inner + (gap + "}") == before + ("{" + inner + gap + "}");
  }

  lemma ArrayCloses(before: string, elems: seq<Value>, depth: nat)
    requires elems != [] && !FitsOnLine(elems)
    ensures var document := before + "[" + ElementLines(elems, depth + 1);
            document + (NewLine(document, Margin(depth)) + "]") == before + Layout(Arr(elems), depth)
  {
    hide ElementLines, Break, NewLine, Margin, FitsOnLine;
    var inner, gap := ElementLines(elems, depth + 1), Break(Layout(elems[|elems| - 1], depth + 1), depth);
    ElementsBreak(before + "[", elems, depth + 1, depth);
    assert before + "[" + inner + (gap + "]") == before + ("[" + inner + gap + "]");
  }

  class StyledWriter {
    const rightMargin: nat := 74
    const indentSize: nat := 3
    var childValues: seq<string>
    var document: string
    var indentString: string
    var addChildValues: bool

    constructor ()
      ensures !addChildValues
    {
      childValues, document, indentString, addChildValues := [], "", "", false;
    }

    /** How many containers are open. */
    ghost function Depth(): nat
      reads this`indentString
    {
      |indentString| / 3
    }

    ghost predicate Valid()
      reads this`indentString
    {
      indentString == Margin(Depth())
    }

    /** The document is empty, or a blank stands where a value is to be written. */
    ghost predicate Ready()
      reads this`indentString, this`document
    {
      if document == "" then indentString == "" else document[|document| - 1] == ' '
    }

    /** The document grows by `piece`, and the indentation and the mode stay. */
    twostate predicate Adds(piece: string)
      reads this
    {
      && Valid() && indentString == old(indentString) && addChildValues == old(addChildValues)
      && document == old(document) + piece
    }

    method Write(root: Value) returns (r: string)
      modifies this
      ensures r == document == Layout(root, 0) + "\n" && Styles(r, root)
      ensures PlainReals(root) ==> JsonStyled.Means(r, Meaning(root))
      ensures indentString == "" && !addChildValues
    {
      document := "";
      addChildValues := false;
      indentString := "";
      assert Margin(0) == "";
      WriteValue(root);
      document := document + "\n";
      assert "" + Layout(root, 0) == Layout(root, 0);
      LayoutStyles(root);
      if PlainReals(root) { StyledMeans(root, document); }
      return document;
    }

    /** In child mode exactly one entry is pushed and nothing else changes; otherwise the document
        grows by the layout of the value. */
    method WriteValue(value: Value)
      requires Valid()
      requires if addChildValues then IsLeaf(value) else Ready()
      modifies this
      ensures Valid() && indentString == old(indentString) && addChildValues == old(addChildValues)
      ensures addChildValues ==> document == old(document) && childValues == old(childValues) + [Text(value, ":")]
      ensures !addChildValues ==> Adds(Layout(value, Depth()))
      decreases value, 3
    {
      hide Margin;
      if IsLeaf(value) { LeafLayout(value, Depth()); }
      match value {
        case Null => PushValue("null");
        case Int(n) =>
          var s := ValueToStringSigned(n);
          PushValue(s);
        case UInt(u) =>
          var s := ValueToStringUnsigned(u);
          PushValue(s);
        case Real(text) => PushValue(text);
        case NoStr => PushValue("");
        case Str(s) =>
          var quoted := ValueToQuotedStringN(s);
          PushValue(quoted);
        case Bool(b) => PushValue(if b then "true" else "false");
        case Arr(elems) => WriteArrayValue(elems);
        case Obj(members) =>
          if members == [] {
            PushValue("{}");
          } else {
            WriteObjectValue(members);
          }
      }
    }

    method PushValue(value: string)
      requires Valid()
      modifies this`document, this`childValues
      ensures Valid()
      ensures addChildValues ==> document == old(document) && childValues == old(childValues) + [value]
      ensures !addChildValues ==> Adds(value) && childValues == old(childValues)
    {
      if addChildValues {
        childValues := childValues + [value];
      } else {
        document := document + value;
      }
    }

    method WriteIndent()
      requires Valid()
      modifies this`document
      ensures Adds(NewLine(old(document), indentString))
    {
      if document != [] {
        var last := document[|document| - 1];
        if last == ' ' {
          assert document + "" == document;
          return;
        }
        if last != '\n' {
          document := document + "\n";
        }
      }
      document := document + indentString;
      assert old(document) + "" + indentString == old(document) + ("" + indentString);
      assert old(document) + "\n" + indentString == old(document) + ("\n" + indentString);
    }

    method WriteWithIndent(value: string)
      requires Valid()
      modifies this`document
      ensures Adds(NewLine(old(document), indentString) + value)
    {
      WriteIndent();
      ghost var gap := NewLine(old(document), indentString);
      assert old(document) + gap + value == old(document) + (gap + value);
      document := document + value;
    }

    method Indent()
      requires Valid()
      modifies this`indentString
      ensures Valid() && Depth() == old(Depth()) + 1
    {
      indentString := indentString + seq(indentSize, _ => ' ');
    }

    /** The assertion of the source is the precondition. */
    method Unindent()
      requires Valid() && |indentString| >= indentSize
      modifies this`indentString
      ensures Valid() && Depth() == old(Depth()) - 1
    {
      indentString := indentString[..|indentString| - indentSize];
    }

    method WriteObjectValue(members: seq<Member>)
      requires Valid() && Ready() && members != [] && !addChildValues
      modifies this
      ensures Adds(Layout(Obj(members), Depth()))
      decreases members, 2
    {
      hide Margin, Layout, MemberLine, MemberLines, Break;
      ghost var before, depth, inner := document, Depth(), Depth() + 1;
      ghost var start := before + "{";
      WriteWithIndent("{");
      Indent();
      ghost var indented := indentString;
      var index := 0;
      NothingYet(start, inner);
      assert members[..0] == [];
      while true
        invariant 0 <= index < |members|
        invariant Valid() && !addChildValues && indentString == indented
        invariant document == start + MemberLines(members[..index], inner) + Comma(index == 0)
        invariant document[|document| - 1] == if index == 0 then '{' else ','
        decreases |members| - index
      {
        WriteMember(members[index]);
        MemberAdded(start, members, index, inner);
        index := index + 1;
        if index == |members| {
          break;
        }
        document := document + ",";
      }
      assert members[..|members|] == members;
      ghost var lines := start + MemberLines(members, inner);
      assert document == lines;
      hide NewLine;
      Unindent();
      ObjectCloses(before, members, depth);
      WriteWithIndent("}");
      assert document == lines + (NewLine(lines, Margin(depth)) + "}");
    }

    /** One member on a line of its own. */
    method WriteMember(m: Member)
      requires Valid() && !addChildValues && document != "" && document[|document| - 1] in {'{', ','}
      modifies this
      ensures Adds(MemberLine(m, Depth()))
      decreases m, 4
    {
      hide Margin, Layout, Quote;
      var quoted := ValueToQuotedString(m.name);
      NewLineBehind(document, document[|document| - 1], Depth());
      WriteWithIndent(quoted);
      document := document + " : ";
      WriteValue(m.value);
      ghost var gap := "\n" + Margin(Depth());
      assert old(document) + (gap + quoted) + " : " + Layout(m.value, Depth())
          == old(document) + (gap + quoted + " : " + Layout(m.value, Depth()));
    }

    method WriteArrayValue(elems: seq<Value>)
      requires Valid()
      requires if addChildValues then elems == [] else Ready()
      modifies this
      ensures Valid() && indentString == old(indentString) && addChildValues == old(addChildValues)
      ensures addChildValues ==> document == old(document) && childValues == old(childValues) + ["[]"]
      ensures !addChildValues ==> Adds(Layout(Arr(elems), Depth()))
      decreases elems, 3
    {
      hide Margin, FitsOnLine;
      if |elems| == 0 {
        PushValue("[]");
        return;
      }
      var isArrayMultiLine := IsMultilineArray(elems);
      if isArrayMultiLine {
        WriteLines(elems);
      } else {
        WriteOneLine(elems);
      }
    }

    /** One element on a line of its own, from its child value or from the element. */
    method WriteElement(elems: seq<Value>, index: nat, hasChildValue: bool)
      requires Valid() && index < |elems| && !addChildValues && (hasChildValue ==> HoldsChildren(elems))
      requires Depth() > 0 && document != "" && document[|document| - 1] in {'[', ','}
      modifies this
      ensures Adds(ElementLine(elems[index], Depth()))
      ensures hasChildValue ==> childValues == old(childValues)
      decreases elems, 0
    {
      hide Layout, HoldsChildren, Margin;
      NewLineBehind(document, document[|document| - 1], Depth());
      ghost var gap := "\n" + Margin(Depth());
      if hasChildValue {
        HeldChild(elems, index);
        LeafLayout(elems[index], Depth());
        WriteWithIndent(childValues[index]);
      } else {
        WriteIndent();
        WriteValue(elems[index]);
        assert old(document) + gap + Layout(elems[index], Depth())
            == old(document) + (gap + Layout(elems[index], Depth()));
      }
    }

    method WriteLines(elems: seq<Value>)
      requires Valid() && Ready() && elems != [] && !addChildValues && !FitsOnLine(elems)
      requires childValues != [] ==> HoldsChildren(elems)
      modifies this
      ensures Adds(Layout(Arr(elems), Depth()))
      decreases elems, 1
    {
      hide Margin, Layout, ElementLine, ElementLines, HoldsChildren, FitsOnLine, Break;
      ghost var before, depth, inner := document, Depth(), Depth() + 1;
      ghost var start := before + "[";
      WriteWithIndent("[");
      Indent();
      ghost var indented := indentString;
      var hasChildValue := childValues != [];
      var index := 0;
      NothingYet(start, inner);
      assert elems[..0] == [];
      while true
        invariant 0 <= index < |elems|
        invariant Valid() && !addChildValues && indentString == indented
        invariant hasChildValue ==> HoldsChildren(elems)
        invariant document == start + ElementLines(elems[..index], inner) + Comma(index == 0)
        invariant document[|document| - 1] == if index == 0 then '[' else ','
        decreases |elems| - index
      {
        WriteElement(elems, index, hasChildValue);
        ElementAdded(start, elems, index, inner);
        index := index + 1;
        if index == |elems| {
          break;
        }
        document := document + ",";
      }
      assert elems[..|elems|] == elems;
      ghost var lines := start + ElementLines(elems, inner);
      assert document == lines;
      hide NewLine;
      Unindent();
      ArrayCloses(before, elems, depth);
      WriteWithIndent("]");
      assert document == lines + (NewLine(lines, Margin(depth)) + "]");
    }

    method WriteOneLine(elems: seq<Value>)
      requires Valid() && elems != [] && !addChildValues && HoldsChildren(elems) && FitsOnLine(elems)
      modifies this`document
      ensures Adds(Layout(Arr(elems), Depth()))
    {
      hide Text, HoldsChildren, FitsOnLine, Joined, Margin;
      document := document + "[ ";
      ghost var start := document;
      NothingYet(start, 0);
      assert elems[..0] == [];
      for index := 0 to |elems|
        invariant document == start + Joined(elems[..index])
      {
        if index > 0 {
          document := document + ", ";
        }
        HeldChild(elems, index);
        ChildAdded(start, elems, index);
        document := document + childValues[index];
      }
      document := document + " ]";
      assert elems[..|elems|] == elems;
      assert old(document) + "[ " + Joined(elems) + " ]" == old(document) + ("[ " + Joined(elems) + " ]");
    }

    /** One child value per element, each the text of its element. */
    ghost predicate HoldsChildren(elems: seq<Value>)
      reads this`childValues
    {
      |childValues| == |elems|
      && forall i | 0 <= i < |elems| :: IsLeaf(elems[i]) && childValues[i] == Text(elems[i], ":")
    }

    lemma HeldChild(elems: seq<Value>, i: nat)
      requires HoldsChildren(elems) && i < |elems|
      ensures i < |childValues| && childValues[i] == Text(elems[i], ":") && IsLeaf(elems[i])
    {
    }

    /** Whether an array takes several lines. When that does not follow from its size or from a
        filled container among its elements, every element has been written to `childValues`. */
    method IsMultilineArray(elems: seq<Value>) returns (isMultiLine: bool)
      requires Valid() && elems != [] && !addChildValues
      modifies this
      ensures Valid() && indentString == old(indentString) && !addChildValues && document == old(document)
      ensures isMultiLine <==> !FitsOnLine(elems)
      ensures childValues == [] || HoldsChildren(elems)
      ensures !isMultiLine ==> HoldsChildren(elems)
      decreases elems, 2
    {
      hide Text, Margin, Joined, OneLine;
      isMultiLine := |elems| * 3 >= rightMargin;
      childValues := [];
      var index := 0;
      while index < |elems| && !isMultiLine
        invariant 0 <= index <= |elems|
        invariant isMultiLine ==> |elems| * 3 >= rightMargin || exists i | 0 <= i < |elems| :: !IsLeaf(elems[i])
        invariant !isMultiLine ==> |elems| * 3 < rightMargin && forall i | 0 <= i < index :: IsLeaf(elems[i])
      {
        var child := elems[index];
        isMultiLine := (child.Arr? && |child.elems| > 0) || (child.Obj? && |child.members| > 0);
        assert isMultiLine <==> !IsLeaf(elems[index]);
        index := index + 1;
      }
      if !isMultiLine {
        addChildValues := true;
        var lineLength := 4 + (|elems| - 1) * 2;
        assert elems[..0] == [];
        NoChildren();
        for i := 0 to |elems|
          invariant Valid() && addChildValues && indentString == old(indentString) && document == old(document)
          invariant |childValues| == i
          invariant forall k | 0 <= k < i :: childValues[k] == Text(elems[k], ":")
          invariant lineLength == 4 + (|elems| - 1) * 2 + Lengths(elems[..i])
        {
          WriteValue(elems[i]);
          NextLength(elems, i);
          lineLength := lineLength + |childValues[i]|;
        }
        addChildValues := false;
        assert elems[..|elems|] == elems;
        LineLength(elems);
        isMultiLine := lineLength >= rightMargin;
      }
    }
  }
}
