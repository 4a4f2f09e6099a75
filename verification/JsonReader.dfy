/** Class Json::Reader: a cursor over the document, a stack of the values being built, and the
    list of errors. Every method is proved to do what JsonGrammar says, on every document. */
module JsonReader {
  import opened Wrappers
  import opened JsonValue
  import opened JsonNumbers
  import opened JsonStrings
  import opened JsonGrammar

  datatype Status = Success | Failure | Thrown

  class Reader {
    const cfg: Config
    var document: string
    var current: nat
    /** The open values, innermost last; the source keeps pointers into the tree. */
    var nodes: seq<Value>
    /** The messages of the errors. */
    var errors: seq<string>
    var stackDepth: nat

    constructor (cfg: Config)
      ensures this.cfg == cfg && Valid() && nodes == [] && errors == []
    {
      this.cfg := cfg;
      document, current, nodes, errors, stackDepth := "", 0, [], [], 0;
    }

    ghost predicate Valid()
      reads this
    {
      current <= |document|
    }

    /** `*current_`: the byte behind the end of a document is its terminating null. */
    function Peek(): char
      requires Valid()
      reads this
    {
      if current < |document| then document[current] else '\0'
    }

    method GetNextChar() returns (c: char)
      requires Valid()
      modifies this`current
      ensures Valid() && c == old(Peek())
      ensures current == if old(current) < |document| then old(current) + 1 else old(current)
    {
      if current == |document| {
        return '\0';
      }
      c := document[current];
      current := current + 1;
    }

    method AddError(message: string)
      modifies this`errors
      ensures errors == old(errors) + [message]
    {
      errors := errors + [message];
    }

    // ---------- Tokens ----------

    method SkipBlanks()
      requires Valid()
      modifies this`current
      ensures Valid() && current == SkipSpaces(document, old(current))
    {
      while current != |document|
        invariant Valid() && SkipSpaces(document, current) == SkipSpaces(document, old(current))
        decreases |document| - current
      {
        var c := document[current];
        if c == ' ' || c == '\t' || c == '\r' || c == '\n' {
          current := current + 1;
        } else {
          break;
        }
      }
    }

    method Match(pattern: string) returns (ok: bool)
      requires Valid()
      modifies this`current
      ensures Valid() && (ok, current) == KeywordEnd(document, old(current), pattern)
    {
      if |document| - current < |pattern| {
        return false;
      }
      var index := |pattern|;
      while index > 0
        invariant 0 <= index <= |pattern| && current == old(current)
        invariant forall k | index <= k < |pattern| :: document[current + k] == pattern[k]
      {
        index := index - 1;
        if document[current + index] != pattern[index] {
          assert document[current..current + |pattern|][index] != pattern[index];
          return false;
        }
      }
      assert document[current..current + |pattern|] == pattern;
      current := current + |pattern|;
      return true;
    }

    method ReadCStyleComment() returns (ok: bool)
      requires Valid()
      modifies this`current
      ensures Valid() && (ok, current) == CStyleCommentEnd(document, old(current))
    {
      while current != |document|
        invariant Valid() && CStyleCommentEnd(document, current) == CStyleCommentEnd(document, old(current))
        decreases |document| - current
      {
        var c := GetNextChar();
        if c == '*' && Peek() == '/' {
          break;
        }
      }
      var c := GetNextChar();
      return c == '/';
    }

    method ReadCppStyleComment() returns (ok: bool)
      requires Valid()
      modifies this`current
      ensures Valid() && ok && current == CppStyleCommentEnd(document, old(current))
    {
      while current != |document|
        invariant Valid() && CppStyleCommentEnd(document, current) == CppStyleCommentEnd(document, old(current))
        decreases |document| - current
      {
        var c := GetNextChar();
        if c == '\n' {
          return true;
        }
        if c == '\r' {
          if current != |document| && document[current] == '\n' {
            c := GetNextChar();
          }
          return true;
        }
      }
      return true;
    }

    method ReadComment() returns (ok: bool)
      requires Valid()
      modifies this`current
      ensures Valid() && (ok, current) == CommentEnd(document, old(current))
    {
      var c := GetNextChar();
      if c == '*' {
        ok := ReadCStyleComment();
      } else if c == '/' {
        ok := ReadCppStyleComment();
      } else {
        ok := false;
      }
    }

    /** Digits from the cursor on; the character behind them, or null at the end. */
    method ReadDigits() returns (c: char)
      requires Valid()
      modifies this`current
      ensures Valid() && current == SkipDigits(document, old(current)) && c == Peek()
    {
      c := Peek();
      while '0' <= c <= '9'
        invariant Valid() && c == Peek() && SkipDigits(document, current) == SkipDigits(document, old(current))
        decreases |document| - current
      {
        current := current + 1;
        c := Peek();
      }
    }

    method ReadNumber()
      requires Valid()
      modifies this`current
      ensures Valid() && current == NumberEnd(document, old(current))
    {
      var c := ReadDigits();
      ReadFraction();
      ReadExponent();
    }

    method ReadFraction()
      requires Valid()
      modifies this`current
      ensures Valid() && current == FractionEnd(document, old(current))
    {
      if Peek() == '.' {
        current := current + 1;
        var c := ReadDigits();
      }
    }

    method ReadExponent()
      requires Valid()
      modifies this`current
      ensures Valid() && current == ExponentEnd(document, old(current))
    {
      var c := Peek();
      if c == 'e' || c == 'E' {
        current := current + 1;
        c := Peek();
        if c == '+' || c == '-' {
          current := current + 1;
        }
        c := ReadDigits();
      }
    }

    method ReadString() returns (ok: bool)
      requires Valid()
      modifies this`current
      ensures Valid() && (ok, current) == StringEnd(document, old(current))
    {
      var c := '\0';
      while current != |document|
        invariant Valid() && c != '\"'
        invariant StringEnd(document, current) == StringEnd(document, old(current))
        decreases |document| - current
      {
        c := GetNextChar();
        if c == '\\' {
          var escaped := GetNextChar();
        } else if c == '\"' {
          break;
        }
      }
      return c == '\"';
    }

    method ReadToken() returns (token: Token)
      requires Valid()
      modifies this`current
      ensures Valid() && token == JsonGrammar.ReadToken(document, old(current)) && current == token.end
    {
      hide StringEnd, CommentEnd, NumberEnd, KeywordEnd, SkipSpaces;
      SkipBlanks();
      var start := current;
      var c := GetNextChar();
      var kind, ok := ErrorToken, true;
      match c {
        case '{' => kind := ObjectBegin;
        case '}' => kind := ObjectEnd;
        case '[' => kind := ArrayBegin;
        case ']' => kind := ArrayEnd;
        case '\"' => kind := StringToken; ok := ReadString();
        case '/' => kind := Comment; ok := ReadComment();
        case 't' => kind := TrueToken; ok := Match("rue");
        case 'f' => kind := FalseToken; ok := Match("alse");
        case 'n' => kind := NullToken; ok := Match("ull");
        case ',' => kind := ArraySeparator;
        case ':' => kind := MemberSeparator;
        case '\0' => kind := EndOfStream;
        case _ =>
          if '0' <= c <= '9' || c == '-' {
            kind := NumberToken;
            ReadNumber();
          } else {
            ok := false;
          }
      }
      if !ok {
        kind := ErrorToken;
      }
      token := Token(kind, start, current);
    }

    /** Skips comments whether or not the features allow them, as readObject and readArray do. */
    method ReadTokenPastComments() returns (token: Token)
      requires Valid()
      modifies this`current
      ensures Valid() && token == SkipComments(document, old(current)) && current == token.end
    {
      token := ReadToken();
      while token.kind == Comment
        invariant Valid() && current == token.end
        invariant token.kind == Comment ==> SkipComments(document, old(current)) == SkipComments(document, current)
        invariant token.kind != Comment ==> SkipComments(document, old(current)) == token
        decreases |document| - current, token.kind == Comment
      {
        token := ReadToken();
      }
    }

    method SkipCommentTokens() returns (token: Token)
      requires Valid()
      modifies this`current
      ensures Valid() && current == token.end
      ensures token == FirstToken(cfg, document, old(current))
    {
      if cfg.allowComments {
        token := ReadTokenPastComments();
      } else {
        token := ReadToken();
      }
    }

    /** Stops on every document: a token other than the end of the stream moves the cursor. */
    method RecoverFromError(skipUntil: TokenType) returns (status: Status)
      requires Valid()
      modifies this`current, this`errors
      ensures Valid() && status == Failure && errors == old(errors) && current >= old(current)
    {
      var errorCount := |errors|;
      while true
        invariant Valid() && errors == old(errors) && current >= old(current)
        decreases |document| - current
      {
        var skip := ReadToken();
        if skip.kind == skipUntil || skip.kind == EndOfStream {
          break;
        }
      }
      errors := errors[..errorCount];
      return Failure;
    }

    method AddErrorAndRecover(message: string, skipUntil: TokenType) returns (status: Status)
      requires Valid()
      modifies this`current, this`errors
      ensures Valid() && status == Failure && errors == old(errors) + [message] && current >= old(current)
    {
      AddError(message);
      status := RecoverFromError(skipUntil);
    }

    // ---------- Values ----------

    /** `currentValue().swapPayload(v)` */
    method SetCurrentValue(v: Value)
      requires nodes != []
      modifies this`nodes
      ensures nodes == old(nodes[..|nodes| - 1]) + [v]
    {
      nodes := nodes[..|nodes| - 1] + [v];
    }

    /** How one value was read from `start`: the outcome is the one of the specification, exactly
        one error is recorded on failure and none on success, and unless an exception is thrown the
        node stack is as it was found except for its top. */
    twostate predicate Read(r: Result, status: Status)
      requires old(nodes) != []
      reads this
    {
      && Valid() && document == old(document) && current >= old(current)
      && (status == Success <==> r.Ok?) && (status == Thrown <==> r.Threw?)
      && (status != Thrown ==> |nodes| == old(|nodes|) && nodes[..|nodes| - 1] == old(nodes[..|nodes| - 1]))
      && (status == Success ==> nodes[|nodes| - 1] == r.value && current == r.end
                                && errors == old(errors) && stackDepth == old(stackDepth))
      && (status == Failure ==> |errors| == old(|errors|) + 1 && stackDepth >= old(stackDepth))
      && (status == Thrown ==> errors == old(errors))
    }

    /** What a failed read leaves on the top of the node stack: an object or array as far as it was
        read, and otherwise what was there before. */
    static ghost predicate LeftBehind(kind: TokenType, before: Value, after: Value) {
      match kind
      case ObjectBegin => after.Obj?
      case ArrayBegin => after.Arr?
      case _ => after == before
    }

    method DecodeNumber(token: Token) returns (status: Status)
      requires Valid() && nodes != [] && token.kind == NumberToken && token.start < token.end == current
      modifies this`nodes, this`errors
      ensures Read(ScalarResult(cfg, document, token), status)
      ensures status == Failure ==> nodes == old(nodes)
    {
      var decoded := DecodeNumberToken(TokenText(document, token));
      match decoded {
        case Integer(v) =>
          SetCurrentValue(v);
          status := Success;
        case GoesToDouble =>
          var value := cfg.scanDouble(TokenText(document, token));
          if value.None? {
            AddError("'" + TokenText(document, token) + "' is not a number.");
            return Failure;
          }
          SetCurrentValue(Real(value.value));
          status := Success;
      }
    }

    method DecodeStringValue(token: Token) returns (status: Status)
      requires Valid() && nodes != [] && token.kind == StringToken && token.start + 2 <= token.end == current
      modifies this`nodes, this`errors
      ensures Read(ScalarResult(cfg, document, token), status)
      ensures status == Failure ==> nodes == old(nodes)
    {
      var decoded := DecodeString(LiteralText(document, token));
      if decoded.None? {
        AddError("Bad escape sequence in string");
        return Failure;
      }
      SetCurrentValue(Str(decoded.value));
      status := Success;
    }

    method ReadValue() returns (status: Status)
      requires Valid() && nodes != []
      modifies this`current, this`nodes, this`errors, this`stackDepth
      ensures Read(JsonGrammar.ReadValue(cfg, document, old(current), old(stackDepth)), status)
      ensures status == Failure ==>
                LeftBehind(FirstToken(cfg, document, old(current)).kind, old(nodes[|nodes| - 1]), nodes[|nodes| - 1])
      decreases |document| - current, 2
    {
      hide TokenBody, JsonGrammar.ReadToken, SkipComments, FirstToken, ValueFrom;
      if stackDepth >= STACK_LIMIT {
        return Thrown;
      }
      stackDepth := stackDepth + 1;
      var token := SkipCommentTokens();
      status := ReadValueFrom(token);
      // The branch without a value returns before the depth is counted back.
      if status != Thrown && BeginsValue(token.kind) {
        stackDepth := stackDepth - 1;
      }
    }

    static predicate BeginsValue(kind: TokenType) {
      kind in {ObjectBegin, ArrayBegin, NumberToken, StringToken, TrueToken, FalseToken, NullToken}
    }

    lemma KeywordScalars(t: Token)
      requires IsToken(document, t)
      ensures match t.kind
              case TrueToken => ScalarResult(cfg, document, t) == Ok(Bool(true), t.end)
              case FalseToken => ScalarResult(cfg, document, t) == Ok(Bool(false), t.end)
              case NullToken => ScalarResult(cfg, document, t) == Ok(Null, t.end)
              case _ => t.kind == NumberToken || t.kind == StringToken || ScalarResult(cfg, document, t) == Failed
    {
    }

    /** The switch of readValue on the type of the first token. */
    method ReadValueFrom(token: Token) returns (status: Status)
      requires Valid() && nodes != [] && IsToken(document, token) && token.end == current
      modifies this`current, this`nodes, this`errors, this`stackDepth
      ensures Read(ValueFrom(cfg, document, token, old(stackDepth)), status)
      ensures status == Success ==> BeginsValue(token.kind)
      ensures status == Failure ==> nodes != [] && LeftBehind(token.kind, old(nodes[|nodes| - 1]), nodes[|nodes| - 1])
      decreases |document| - token.start, 1
    {
      hide TokenBody, JsonGrammar.ReadToken, SkipComments, ReadMembers, JsonGrammar.ReadArray, SkipSpaces, ScalarResult;
      match token.kind {
        case ObjectBegin => status := ReadObject();
        case ArrayBegin => status := ReadArray();
        case _ => status := ReadScalar(token);
      }
    }

    method ReadScalar(token: Token) returns (status: Status)
      requires Valid() && nodes != [] && IsToken(document, token) && token.end == current
      modifies this`nodes, this`errors
      ensures Read(ScalarResult(cfg, document, token), status)
      ensures status == Success ==> BeginsValue(token.kind)
      ensures status == Failure ==> nodes == old(nodes)
    {
      hide ScalarResult;
      KeywordScalars(token);
      if token.kind == NumberToken {
        status := DecodeNumber(token);
      } else if token.kind == StringToken {
        status := DecodeStringValue(token);
      } else if token.kind == TrueToken || token.kind == FalseToken {
        SetCurrentValue(Bool(token.kind == TrueToken));
        status := Success;
      } else if token.kind == NullToken {
        SetCurrentValue(Null);
        status := Success;
      } else {
        AddError("Syntax error: value, object or array expected.");
        status := Failure;
      }
    }

    /** Pushes a null, reads a value over it and pops it again. */
    method ReadChild() returns (status: Status, child: Value)
      requires Valid()
      modifies this`current, this`nodes, this`errors, this`stackDepth
      ensures var r := JsonGrammar.ReadValue(cfg, document, old(current), old(stackDepth));
              && Valid() && current >= old(current)
              && (status == Success <==> r.Ok?) && (status == Thrown <==> r.Threw?)
              && (status != Thrown ==> nodes == old(nodes))
              && (status == Success ==> child == r.value && current == r.end
                                        && errors == old(errors) && stackDepth == old(stackDepth))
              && (status == Failure ==> |errors| == old(|errors|) + 1 && stackDepth >= old(stackDepth))
              && (status == Thrown ==> errors == old(errors))
      decreases |document| - current, 3
    {
      ghost var stack := nodes;
      nodes := nodes + [Null];
      label pushed:
      assert nodes[..|nodes| - 1] == stack;
      status := ReadValue();
      child := Null;
      if status != Thrown {
        assert nodes[..|nodes| - 1] == stack;
        child := nodes[|nodes| - 1];
        nodes := nodes[..|nodes| - 1];
      }
    }

    method ReadArray() returns (status: Status)
      requires Valid() && nodes != []
      modifies this`current, this`nodes, this`errors, this`stackDepth
      ensures Read(JsonGrammar.ReadArray(cfg, document, SkipSpaces(document, old(current)), old(stackDepth)), status)
      ensures status == Failure ==> nodes[|nodes| - 1].Arr?
      decreases |document| - current, 5
    {
      SetCurrentValue(Arr([]));
      SkipBlanks();
      if Peek() == ']' {
        var endArray := GetNextChar();
        return Success;
      }
      status := ReadElements();
    }

    method ReadElements() returns (status: Status)
      requires Valid() && nodes != []
      modifies this`current, this`nodes, this`errors, this`stackDepth
      ensures Read(ReadItems(cfg, document, old(current), old(stackDepth), []), status)
      ensures status == Failure ==> nodes[|nodes| - 1].Arr?
      decreases |document| - current, 4
    {
      hide TokenBody, JsonGrammar.ReadToken, SkipComments, JsonGrammar.ReadValue;
      ghost var bottom := nodes[..|nodes| - 1];
      var elems: seq<Value> := [];
      SetCurrentValue(Arr(elems));
      while true
        invariant Valid() && old(current) <= current
        invariant nodes == bottom + [Arr(elems)]
        invariant errors == old(errors) && stackDepth == old(stackDepth)
        invariant ReadItems(cfg, document, old(current), stackDepth, [])
            == ReadItems(cfg, document, current, stackDepth, elems)
        decreases |document| - current
      {
        var ok, child := ReadChild();
        if ok == Thrown {
          return Thrown;
        }
        elems := elems + [child];
        SetCurrentValue(Arr(elems));
        if ok != Success {
          status := RecoverFromError(ArrayEnd);
          return;
        }
        var token := ReadTokenPastComments();
        if token.kind != ArraySeparator && token.kind != ArrayEnd {
          status := AddErrorAndRecover("Missing ',' or ']' in array declaration", ArrayEnd);
          return;
        }
        if token.kind == ArrayEnd {
          break;
        }
      }
      status := Success;
    }

    /** The name of the next member and the colon behind it; None after an error was recorded. */
    method ReadMemberName(tokenName: Token) returns (name: Option<string>)
      requires Valid() && IsToken(document, tokenName) && tokenName.kind == StringToken && tokenName.end == current
      modifies this`current, this`errors
      ensures Valid() && current >= old(current)
      ensures var colon := JsonGrammar.ReadToken(document, tokenName.end);
              if Unescape(LiteralText(document, tokenName)).None? || colon.kind != MemberSeparator then
                name == None && |errors| == old(|errors|) + 1
              else name == Unescape(LiteralText(document, tokenName)) && current == colon.end && errors == old(errors)
    {
      name := DecodeString(LiteralText(document, tokenName));
      if name.None? {
        AddError("Bad escape sequence in string");
        var failed := RecoverFromError(ObjectEnd);
        return None;
      }
      var colon := ReadToken();
      if colon.kind != MemberSeparator {
        var failed := AddErrorAndRecover("Missing ':' after object member name", ObjectEnd);
        return None;
      }
    }

    /** The token behind a member; None after an error was recorded. */
    method ReadComma() returns (comma: Option<TokenType>)
      requires Valid()
      modifies this`current, this`errors
      ensures Valid() && current >= old(current)
      ensures var next := SkipComments(document, old(current));
              if JsonGrammar.ReadToken(document, old(current)).kind !in {ObjectEnd, ArraySeparator, Comment} then
                comma == None && |errors| == old(|errors|) + 1
              else comma == Some(next.kind) && current == next.end && errors == old(errors)
    {
      var token := ReadToken();
      if token.kind != ObjectEnd && token.kind != ArraySeparator && token.kind != Comment {
        var failed := AddErrorAndRecover("Missing ',' or '}' in object declaration", ObjectEnd);
        return None;
      }
      if token.kind == Comment {
        token := ReadTokenPastComments();
      }
      return Some(token.kind);
    }

    /** One member, from its name to the token behind it. */
    method ReadMember(tokenName: Token, ghost members: seq<Member>)
        returns (status: Status, name: string, child: Value, closed: bool)
      requires Valid() && IsToken(document, tokenName) && tokenName.kind == StringToken && tokenName.end == current
      modifies this`current, this`nodes, this`errors, this`stackDepth
      ensures Valid() && current >= old(current)
      ensures status != Thrown ==> nodes == old(nodes)
      ensures status == Success ==> errors == old(errors) && stackDepth == old(stackDepth)
      ensures status == Failure ==> |errors| == old(|errors|) + 1 && stackDepth >= old(stackDepth)
      ensures status == Thrown ==> errors == old(errors)
      ensures MemberFrom(cfg, document, tokenName, old(stackDepth), members) ==
                match status
                case Success =>
                  var updated := SetMember(members, name, child);
                  if closed then Ok(Obj(updated), current)
                  else ReadMembers(cfg, document, current, stackDepth, updated, name == "")
                case Failure => Failed
                case Thrown => Threw
      decreases |document| - current, 4
    {
      child, closed, name := Null, false, "";
      var decoded := ReadMemberName(tokenName);
      if decoded.None? {
        return Failure, name, child, closed;
      }
      name := decoded.value;
      status, child := ReadChild();
      if status == Thrown {
        return;
      }
      if status != Success {
        status := RecoverFromError(ObjectEnd);
        return;
      }
      var comma := ReadComma();
      if comma.None? {
        return Failure, name, child, closed;
      }
      closed := comma.value == ObjectEnd;
    }

    /** What comes first where a member is expected. */
    lemma MembersUnfold(pos: nat, depth: nat, members: seq<Member>, lastNameEmpty: bool)
      requires pos <= |document|
      ensures ReadMembers(cfg, document, pos, depth, members, lastNameEmpty) ==
                var t := SkipComments(document, pos);
                if t.kind == ObjectEnd && lastNameEmpty then Ok(Obj(members), t.end)
                else if t.kind != StringToken then Failed
                else MemberFrom(cfg, document, t, depth, members)
    {
    }

    method ReadObject() returns (status: Status)
      requires Valid() && nodes != []
      modifies this`current, this`nodes, this`errors, this`stackDepth
      ensures Read(ReadMembers(cfg, document, old(current), old(stackDepth), [], true), status)
      ensures status == Failure ==> nodes[|nodes| - 1].Obj?
      decreases |document| - current, 4
    {
      hide TokenBody, JsonGrammar.ReadToken, SkipComments, MemberFrom, SetMember, ReadMembers;
      ghost var bottom := nodes[..|nodes| - 1];
      var lastName := "";
      var members: seq<Member> := [];
      SetCurrentValue(Obj(members));
      while true
        invariant Valid() && old(current) <= current
        invariant nodes == bottom + [Obj(members)]
        invariant errors == old(errors) && stackDepth == old(stackDepth)
        invariant ReadMembers(cfg, document, old(current), stackDepth, [], true)
               == ReadMembers(cfg, document, current, stackDepth, members, lastName == "")
        decreases |document| - current
      {
        MembersUnfold(current, stackDepth, members, lastName == "");
        var tokenName := ReadTokenPastComments();
        if tokenName.kind == ObjectEnd && lastName == "" {
          return Success;
        }
        if tokenName.kind != StringToken {
          status := AddErrorAndRecover("Missing '}' or object member name", ObjectEnd);
          return;
        }
        var child, closed;
        status, lastName, child, closed := ReadMember(tokenName, members);
        if status != Success {
          return;
        }
        members := SetMember(members, lastName, child);
        SetCurrentValue(Obj(members));
        if closed {
          return;
        }
      }
    }

    /** A whole document, into a value that may hold something already. The result is the one of the
        specification. A failed parse leaves one error behind, and in strict mode a second one when
        what is left in the value is no container. */
    method Parse(doc: string, previous: Value) returns (status: Status, root: Value)
      modifies this
      ensures Valid() && document == doc
      ensures match JsonGrammar.Parse(cfg, doc)
              case Ok(v, _) => status == Success && root == v && errors == []
              case Failed => status == Failure
              case Threw => status == Thrown
      ensures var read := JsonGrammar.ReadValue(cfg, doc, 0, 0);
              var refused := cfg.strictRoot && !root.Arr? && !root.Obj?;
              && (read.Failed? ==> LeftBehind(FirstToken(cfg, doc, 0).kind, previous, root))
              && (read.Ok? ==> root == read.value)
              && (status == Failure ==> |errors| == (if read.Failed? then 1 else 0) + if refused then 1 else 0)
    {
      hide TokenBody, JsonGrammar.ReadToken, SkipComments, JsonGrammar.ReadValue, FirstToken;
      document, current, errors := doc, 0, [];
      nodes := [previous];
      stackDepth := 0;
      status := ReadValue();
      root := previous;
      if status == Thrown {
        return;
      }
      root := nodes[0];
      var token := SkipCommentTokens();
      if cfg.strictRoot && !root.Arr? && !root.Obj? {
        AddError("A valid JSON document must be either an array or an object value.");
        return Failure, root;
      }
    }
  }
}
