/** The recursive-descent parser: a cursor and an item budget advanced in place. Every routine is
    proved to compute the function of the same name in `Grammar`. */
module ResponseParser {
  import opened Bytes
  import opened Ast
  import G = Grammar

  datatype Result<+T> = Success(value: T) | Failure(error: ParseError) {
    predicate IsFailure() { Failure? }
    function PropagateFailure<U>(): Result<U>
      requires Failure?
    {
      Failure(error)
    }
    function Extract(): T
      requires Success?
    {
      value
    }
  }

  class Parser {
    const input: bytes
    var pos: nat
    var itemsLeft: nat

    ghost predicate Valid()
      reads this
    {
      pos <= |input|
    }

    /** The outcome `r`, with the cursor and budget left behind, is what `spec` says. */
    ghost predicate Gives<T>(r: Result<T>, spec: G.Res<T>)
      reads this
    {
      match spec
      case Ok(v, q, t) => r == Success(v) && pos == q && itemsLeft == t
      case Err(e) => r == Failure(e)
    }

    constructor (input: bytes)
      ensures Valid() && this.input == input && pos == 0 && itemsLeft == G.MAX_ITEMS_PER_RESPONSE
    {
      this.input := input;
      pos := 0;
      itemsLeft := G.MAX_ITEMS_PER_RESPONSE;
    }

    // -------------------------------------------------------------------------
    // Cursor primitives
    // -------------------------------------------------------------------------

    method PushItem<T>(list: seq<T>, item: T) returns (r: Result<seq<T>>)
      requires Valid()
      modifies this`itemsLeft
      ensures Valid()
      ensures match G.Charge(pos, old(itemsLeft))
              case Ok(_, _, t) => r == Success(list + [item]) && itemsLeft == t
              case Err(e) => r == Failure(e)
    {
      if itemsLeft == 0 {
        return Failure(TooManyItems(G.MAX_ITEMS_PER_RESPONSE));
      }
      itemsLeft := itemsLeft - 1;
      r := Success(list + [item]);
    }

    predicate IsEof()
      reads this
    {
      pos >= |input|
    }

    function Peek(): Result<byte>
      reads this
    {
      if pos < |input| then Success(input[pos]) else Failure(Incomplete)
    }

    /** The text from `start` to the cursor, once a scan has stopped. */
    method ScannedText(start: nat) returns (r: Result<bytes>)
      requires Valid() && start <= pos
      ensures Gives(r, G.ScannedText(input, start, pos, itemsLeft))
    {
      if IsEof() {
        return Failure(Incomplete);
      }
      if !Utf8(input[start..pos]) {
        return Failure(Other("Invalid UTF-8"));
      }
      r := Success(input[start..pos]);
    }

    method ConsumeByte(b: byte) returns (r: Result<()>)
      requires Valid()
      modifies this`pos
      ensures Valid() && Gives(r, G.Consume(input, old(pos), itemsLeft, b))
    {
      var c :- Peek();
      if c != b {
        return Failure(InvalidChar(pos));
      }
      pos := pos + 1;
      r := Success(());
    }

    method TryConsumeByte(b: byte) returns (found: bool)
      requires Valid()
      modifies this`pos
      ensures Valid() && found == G.Next(input, old(pos), b)
      ensures pos == if found then old(pos) + 1 else old(pos)
    {
      found := pos < |input| && input[pos] == b;
      if found {
        pos := pos + 1;
      }
    }

    method TryConsumeKeyword(kw: bytes) returns (found: bool)
      requires Valid()
      modifies this`pos
      ensures Valid() && found == G.KeywordAt(input, old(pos), kw)
      ensures pos == if found then old(pos) + |kw| else old(pos)
    {
      if !MatchesCi(input, pos, kw) {
        return false;
      }
      var end := pos + |kw|;
      if end < |input| && !G.IsBoundary(input[end]) {
        return false;
      }
      pos := end;
      found := true;
    }

    method ConsumeCrlf() returns (r: Result<()>)
      requires Valid()
      modifies this`pos
      ensures Valid() && Gives(r, G.ConsumeCrlf(input, old(pos), itemsLeft))
    {
      var c :- Peek();
      if c != CR {
        return Failure(Malformed("expected CR"));
      }
      if pos + 1 >= |input| {
        return Failure(Incomplete);
      }
      if input[pos + 1] != LF {
        return Failure(Malformed("expected LF after CR"));
      }
      pos := pos + 2;
      r := Success(());
    }

    method ConsumeSp() returns (r: Result<()>)
      requires Valid()
      modifies this`pos
      ensures Valid() && Gives(r, G.Consume(input, old(pos), itemsLeft, SP))
    {
      r := ConsumeByte(SP);
    }

    method ExpectNil() returns (r: Result<()>)
      requires Valid()
      modifies this`pos
      ensures Valid() && Gives(r, G.ExpectNil(input, old(pos), itemsLeft))
    {
      var found := TryConsumeKeyword(G.NIL);
      if found {
        return Success(());
      }
      if G.CutKeyword(input, pos, G.NIL) {
        return Failure(Incomplete);
      }
      r := Failure(Malformed("expected nstring"));
    }

    /** The loop shared by the token scanners: advance over bytes of one class. */
    method SkipWhile(c: Class)
      requires Valid()
      modifies this`pos
      ensures Valid() && pos == Scan(input, old(pos), c)
    {
      while pos < |input| && InClass(c, input[pos])
        invariant old(pos) <= pos <= |input|
        invariant Scan(input, pos, c) == Scan(input, old(pos), c)
        decreases |input| - pos
      {
        pos := pos + 1;
      }
    }

    method ParseNumber() returns (r: Result<nat>)
      requires Valid()
      modifies this`pos
      ensures Valid() && Gives(r, G.Number(input, old(pos), itemsLeft))
    {
      var start := pos;
      SkipWhile(Digit);
      if start == pos {
        return if IsEof() then Failure(Incomplete) else Failure(InvalidNumber);
      }
      var n := Decimal(input[start..pos]);
      r := if n <= U32_MAX then Success(n) else Failure(InvalidNumber);
    }

    method ParseAtom() returns (r: Result<bytes>)
      requires Valid()
      modifies this`pos
      ensures Valid() && Gives(r, G.Atom(input, old(pos), itemsLeft))
    {
      var start := pos;
      SkipWhile(AtomChar);
      if start == pos {
        return if IsEof() then Failure(Incomplete) else Failure(Malformed("expected atom"));
      }
      r := ScannedText(start);
    }

    method ParseTag() returns (r: Result<bytes>)
      requires Valid()
      modifies this`pos
      ensures Valid() && Gives(r, G.Tag(input, old(pos), itemsLeft))
    {
      var start := pos;
      SkipWhile(TagChar);
      if start == pos {
        return if IsEof() then Failure(Incomplete) else Failure(Malformed("expected tag"));
      }
      r := ScannedText(start);
    }

    // -------------------------------------------------------------------------
    // Strings
    // -------------------------------------------------------------------------

    method ParseQuoted() returns (r: Result<bytes>)
      requires Valid()
      modifies this`pos
      ensures Valid() && Gives(r, G.Quoted(input, old(pos), itemsLeft))
    {
      var _ :- ConsumeByte(DQUOTE);
      var start := pos;
      while true
        invariant start <= pos <= |input|
        invariant G.QuotedEnd(input, pos, itemsLeft) == G.QuotedEnd(input, start, itemsLeft)
        decreases |input| - pos
      {
        var c :- Peek();
        if c == DQUOTE {
          if !Utf8(input[start..pos]) {
            return Failure(Other("Invalid UTF-8"));
          }
          r := Success(input[start..pos]);
          pos := pos + 1;
          return;
        } else if c == BACKSLASH {
          pos := pos + 1;
          var e :- Peek();
          if e != DQUOTE && e != BACKSLASH {
            return Failure(Malformed("invalid escape in quoted string"));
          }
          pos := pos + 1;
        } else if c == CR || c == LF {
          return Failure(Malformed("CR/LF inside quoted string"));
        } else if c == NUL {
          return Failure(Malformed("NUL inside quoted string"));
        } else {
          pos := pos + 1;
        }
      }
    }

    method ParseLiteral() returns (r: Result<bytes>)
      requires Valid()
      modifies this`pos
      ensures Valid() && Gives(r, G.Literal(input, old(pos), itemsLeft))
    {
      var _ :- ConsumeByte(LBRACE);
      var n :- ParseNumber();
      var _ :- ConsumeByte(RBRACE);
      var _ :- ConsumeCrlf();
      if n > G.MAX_LITERAL_SIZE {
        return Failure(LiteralTooLarge(n, G.MAX_LITERAL_SIZE));
      }
      var end := pos + n;
      if end > |input| {
        return Failure(Incomplete);
      }
      r := Success(input[pos..end]);
      pos := end;
    }

    method ParseLiteralText() returns (r: Result<bytes>)
      requires Valid()
      modifies this`pos
      ensures Valid() && Gives(r, G.LiteralText(input, old(pos), itemsLeft))
    {
      var data :- ParseLiteral();
      r := if Utf8(data) then Success(data) else Failure(Other("Invalid UTF-8"));
    }

    method ParseAString() returns (r: Result<bytes>)
      requires Valid()
      modifies this`pos
      ensures Valid() && Gives(r, G.AString(input, old(pos), itemsLeft))
    {
      var c :- Peek();
      if c == DQUOTE {
        r := ParseQuoted();
      } else if c == LBRACE {
        r := ParseLiteralText();
      } else {
        r := ParseAtom();
      }
    }

    method ParseNString() returns (r: Result<Option<bytes>>)
      requires Valid()
      modifies this`pos
      ensures Valid() && Gives(r, G.NString(input, old(pos), itemsLeft))
    {
      hide G.Quoted, G.LiteralText, G.ExpectNil;
      var c :- Peek();
      if c == DQUOTE {
        var s :- ParseQuoted();
        r := Success(Some(s));
      } else if c == LBRACE {
        var s :- ParseLiteralText();
        r := Success(Some(s));
      } else {
        var _ :- ExpectNil();
        r := Success(None);
      }
    }

    method ParseNStringBytesOptional() returns (r: Result<Option<bytes>>)
      requires Valid()
      modifies this`pos
      ensures Valid() && Gives(r, G.NStringBytesOptional(input, old(pos), itemsLeft))
    {
      hide G.Quoted, G.Literal, G.ExpectNil;
      var c :- Peek();
      if c == DQUOTE {
        var s :- ParseQuoted();
        r := Success(Some(s));
      } else if c == LBRACE {
        var s :- ParseLiteral();
        r := Success(Some(s));
      } else {
        var _ :- ExpectNil();
        r := Success(None);
      }
    }

    method ParseNStringBytes() returns (r: Result<bytes>)
      requires Valid()
      modifies this`pos
      ensures Valid() && Gives(r, G.NStringBytes(input, old(pos), itemsLeft))
    {
      hide G.Quoted, G.Literal, G.ExpectNil;
      var c :- Peek();
      if c == DQUOTE {
        r := ParseQuoted();
      } else if c == LBRACE {
        r := ParseLiteral();
      } else {
        var _ :- ExpectNil();
        assert input[pos..pos] == [];
        r := Success(input[pos..pos]);
      }
    }

    // -------------------------------------------------------------------------
    // Lists and nested values
    // -------------------------------------------------------------------------

    method ParseFlagOrAtom() returns (r: Result<bytes>)
      requires Valid()
      modifies this`pos
      ensures Valid() && Gives(r, G.FlagOrAtom(input, old(pos), itemsLeft))
    {
      var start := pos;
      var c :- Peek();
      if c == BACKSLASH {
        pos := pos + 1;
        var star := TryConsumeByte(STAR);
        if star {
          return if Utf8(input[start..pos]) then Success(input[start..pos]) else Failure(Other("Invalid UTF-8"));
        }
      }
      SkipWhile(AtomChar);
      if start == pos {
        return Failure(Malformed("expected flag/atom"));
      }
      r := ScannedText(start);
    }

    method ParseParenAtomList() returns (r: Result<seq<bytes>>)
      requires Valid()
      modifies this
      ensures Valid() && Gives(r, G.AtomList(input, old(pos), old(itemsLeft)))
    {
      hide G.FlagOrAtom;
      var _ :- ConsumeByte(LPAREN);
      var items: seq<bytes> := [];
      var empty := TryConsumeByte(RPAREN);
      if empty {
        return Success(items);
      }
      ghost var spec := G.AtomListRest(input, pos, itemsLeft, items);
      while true
        invariant Valid()
        invariant G.AtomListRest(input, pos, itemsLeft, items) == spec
        decreases |input| - pos
      {
        var item :- ParseFlagOrAtom();
        items :- PushItem(items, item);
        var c :- Peek();
        if c == SP {
          pos := pos + 1;
        } else if c == RPAREN {
          pos := pos + 1;
          return Success(items);
        } else {
          return Failure(Malformed("expected SP or ) in list"));
        }
      }
    }

    method ParseBalancedParens() returns (r: Result<bytes>)
      requires Valid()
      modifies this`pos
      ensures Valid() && Gives(r, G.Balanced(input, old(pos), itemsLeft))
    {
      hide G.Quoted, G.Literal;
      var start := pos;
      var _ :- ConsumeByte(LPAREN);
      var depth: nat := 1;
      ghost var spec := G.BalancedEnd(input, pos, itemsLeft, depth);
      while depth > 0
        invariant start <= pos <= |input| && depth <= U32_MAX
        invariant G.BalancedEnd(input, pos, itemsLeft, depth) == spec
        decreases |input| - pos
      {
        var c :- Peek();
        if c == LPAREN {
          pos := pos + 1;
          if depth == U32_MAX {
            return Failure(Other("paren depth overflow"));
          }
          depth := depth + 1;
        } else if c == RPAREN {
          pos := pos + 1;
          depth := depth - 1;
        } else if c == DQUOTE {
          var _ :- ParseQuoted();
        } else if c == LBRACE {
          var _ :- ParseLiteral();
        } else if c == CR || c == LF {
          return Failure(Malformed("CR/LF inside parenthesised value"));
        } else {
          pos := pos + 1;
        }
      }
      r := Success(input[start..pos]);
    }

    method ParseText() returns (r: Result<bytes>)
      requires Valid()
      modifies this`pos
      ensures Valid() && Gives(r, G.Text(input, old(pos), itemsLeft))
    {
      var start := pos;
      SkipWhile(TextChar);
      r := ScannedText(start);
    }

    method ReadUntilBracket() returns (r: Result<bytes>)
      requires Valid()
      modifies this`pos
      ensures Valid() && Gives(r, G.ReadSection(input, old(pos), itemsLeft))
    {
      var start := pos;
      while pos < |input| && input[pos] != RBRACKET
        invariant start <= pos <= |input|
        invariant Scan(input, pos, SectionChar) == Scan(input, start, SectionChar)
        decreases |input| - pos
      {
        if input[pos] == CR || input[pos] == LF {
          return Failure(Malformed("CR/LF before terminator"));
        }
        pos := pos + 1;
      }
      r := ScannedText(start);
    }

    // -------------------------------------------------------------------------
    // Status responses
    // -------------------------------------------------------------------------

    method TryParseStatusKeyword() returns (r: Option<Status>)
      requires Valid()
      modifies this`pos
      ensures Valid()
      ensures match G.StatusKeyword(input, old(pos))
              case Some(kw) => r == Some(kw.0) && pos == old(pos) + kw.1
              case None => r == None && pos == old(pos)
    {
      hide G.KeywordAt;
      var found := TryConsumeKeyword(G.PREAUTH);
      if found { return Some(StPreAuth); }
      found := TryConsumeKeyword(G.OK);
      if found { return Some(StOk); }
      found := TryConsumeKeyword(G.NO);
      if found { return Some(StNo); }
      found := TryConsumeKeyword(G.BAD);
      if found { return Some(StBad); }
      found := TryConsumeKeyword(G.BYE);
      r := if found then Some(StBye) else None;
    }

    /** The capability loop: an atom after every SP. */
    method ParseCapabilities() returns (r: Result<seq<bytes>>)
      requires Valid()
      modifies this
      ensures Valid() && Gives(r, G.CapsRest(input, old(pos), old(itemsLeft), []))
    {
      hide G.Atom;
      var caps: seq<bytes> := [];
      ghost var spec := G.CapsRest(input, pos, itemsLeft, caps);
      var more := TryConsumeByte(SP);
      while more
        invariant Valid() && (more ==> pos > 0 && input[pos - 1] == SP)
        invariant G.CapsRest(input, if more then pos - 1 else pos, itemsLeft, caps) == spec
        invariant !more ==> !G.Next(input, pos, SP)
        decreases |input| - pos, more
      {
        var cap :- ParseAtom();
        caps :- PushItem(caps, cap);
        more := TryConsumeByte(SP);
      }
      r := Success(caps);
    }

    method ParseSpNumber() returns (r: Result<nat>)
      requires Valid()
      modifies this`pos
      ensures Valid() && Gives(r, G.SpNumber(input, old(pos), itemsLeft))
    {
      var _ :- ConsumeSp();
      r := ParseNumber();
    }

    method ParseSpAtomList() returns (r: Result<seq<bytes>>)
      requires Valid()
      modifies this
      ensures Valid() && Gives(r, G.SpAtomList(input, old(pos), old(itemsLeft)))
    {
      hide G.AtomList;
      var _ :- ConsumeSp();
      r := ParseParenAtomList();
    }

    method ParseCodeArgument(atom: bytes) returns (r: Result<ResponseCode>)
      requires Valid()
      modifies this
      ensures Valid() && Gives(r, G.CodeArgument(input, old(pos), old(itemsLeft), atom))
    {
      hide G.CodeKindOf, G.SpNumber, G.CapsRest, G.SpAtomList, G.AtomList, G.ReadSection;
      match G.CodeKindOf(atom)
      case KAlert => r := Success(Alert);
      case KParse => r := Success(Parse);
      case KReadOnly => r := Success(ReadOnly);
      case KReadWrite => r := Success(ReadWrite);
      case KTryCreate => r := Success(TryCreate);
      case KUidNext =>
        var n :- ParseSpNumber();
        r := Success(UidNext(n));
      case KUidValidity =>
        var n :- ParseSpNumber();
        r := Success(UidValidity(n));
      case KUnseen =>
        var n :- ParseSpNumber();
        r := Success(Unseen(n));
      case KCodeCapability =>
        var caps :- ParseCapabilities();
        r := Success(CodeCapability(caps));
      case KPermanentFlags =>
        var flags :- ParseSpAtomList();
        r := Success(PermanentFlags(flags));
      case KBadCharset =>
        var listed := TryConsumeByte(SP);
        if listed {
          var charsets :- ParseParenAtomList();
          r := Success(BadCharset(charsets));
        } else {
          r := Success(BadCharset([]));
        }
      case KOtherCode =>
        var more := TryConsumeByte(SP);
        if more {
          var extra :- ReadUntilBracket();
          r := Success(OtherCode(atom, Some(extra)));
        } else {
          r := Success(OtherCode(atom, None));
        }
    }

    method ParseRespTextCode() returns (r: Result<ResponseCode>)
      requires Valid()
      modifies this
      ensures Valid() && Gives(r, G.RespTextCode(input, old(pos), old(itemsLeft)))
    {
      hide G.CodeArgument;
      var start := pos;
      while pos < |input| && input[pos] != RBRACKET && input[pos] != SP
        invariant start <= pos <= |input| && itemsLeft == old(itemsLeft)
        invariant Scan(input, pos, CodeChar) == Scan(input, start, CodeChar)
        decreases |input| - pos
      {
        if input[pos] == CR || input[pos] == LF {
          return Failure(Malformed("CR/LF inside response code"));
        }
        pos := pos + 1;
      }
      if IsEof() {
        return Failure(Incomplete);
      }
      if start == pos {
        return Failure(Malformed("empty response code"));
      }
      var atom :- ScannedText(start);
      r := ParseCodeArgument(atom);
    }

    method ParseRespText() returns (r: Result<(Option<ResponseCode>, bytes)>)
      requires Valid()
      modifies this
      ensures Valid() && Gives(r, G.RespText(input, old(pos), old(itemsLeft)))
    {
      hide G.RespTextCode, G.Text;
      var code: Option<ResponseCode> := None;
      var bracket := TryConsumeByte(LBRACKET);
      if bracket {
        var c :- ParseRespTextCode();
        var _ :- ConsumeByte(RBRACKET);
        var _ := TryConsumeByte(SP);
        code := Some(c);
      }
      var text :- ParseText();
      r := Success((code, text));
    }

    method ParseRespTextAfterKeyword() returns (r: Result<(Option<ResponseCode>, bytes)>)
      requires Valid()
      modifies this
      ensures Valid() && Gives(r, G.RespTextAfterKeyword(input, old(pos), old(itemsLeft)))
    {
      hide G.RespText;
      var sp := TryConsumeByte(SP);
      if sp {
        r := ParseRespText();
      } else {
        r := Success((None, []));
      }
    }

    method ParseContinueReq() returns (r: Result<Response>)
      requires Valid()
      modifies this
      ensures Valid() && Gives(r, G.ContinueReq(input, old(pos), old(itemsLeft)))
    {
      hide G.RespText;
      var _ :- ConsumeByte(PLUS);
      var _ :- ConsumeSp();
      var x :- ParseRespText();
      var _ :- ConsumeCrlf();
      r := Success(Continue(x.0, x.1));
    }

    method ParseStatusRest(tag: Option<bytes>, status: Status) returns (r: Result<Response>)
      requires Valid()
      modifies this
      ensures Valid() && Gives(r, G.StatusRest(input, old(pos), old(itemsLeft), tag, status))
    {
      hide G.RespTextAfterKeyword;
      var x :- ParseRespTextAfterKeyword();
      var _ :- ConsumeCrlf();
      r := Success(StatusResponse(tag, status, x.0, x.1));
    }

    method ParseTagged() returns (r: Result<Response>)
      requires Valid()
      modifies this
      ensures Valid() && Gives(r, G.Tagged(input, old(pos), old(itemsLeft)))
    {
      hide G.Tag, G.StatusRest, G.StatusKeyword, G.CutStatusKeyword;
      var tag :- ParseTag();
      var _ :- ConsumeSp();
      var status := TryParseStatusKeyword();
      match status
      case Some(s) =>
        r := ParseStatusRest(Some(tag), s);
      case None =>
        if G.CutStatusKeyword(input, pos) {
          return Failure(Incomplete);
        }
        r := Failure(Malformed("expected tagged status keyword"));
    }

    // -------------------------------------------------------------------------
    // FETCH attributes
    // -------------------------------------------------------------------------

    method ParseFetchAttName() returns (r: Result<bytes>)
      requires Valid()
      modifies this`pos
      ensures Valid() && Gives(r, G.FetchAttName(input, old(pos), itemsLeft))
    {
      var start := pos;
      SkipWhile(AttNameChar);
      if IsEof() {
        return Failure(Incomplete);
      }
      if start == pos {
        return Failure(Malformed("expected FETCH att name"));
      }
      r := ScannedText(start);
    }

    method ParseOrigin() returns (r: Result<Option<nat>>)
      requires Valid()
      modifies this`pos
      ensures Valid() && Gives(r, G.Origin(input, old(pos), itemsLeft))
    {
      hide G.Number;
      var open := TryConsumeByte(LESS);
      if !open {
        return Success(None);
      }
      var n :- ParseNumber();
      var _ :- ConsumeByte(GREATER);
      r := Success(Some(n));
    }

    method ParseBodySectionRest() returns (r: Result<FetchAttribute>)
      requires Valid()
      modifies this`pos
      ensures Valid() && Gives(r, G.BodySectionRest(input, old(pos), itemsLeft))
    {
      hide G.ReadSection, G.Origin, G.NStringBytesOptional;
      var section :- ReadUntilBracket();
      var _ :- ConsumeByte(RBRACKET);
      var origin :- ParseOrigin();
      var _ :- ConsumeSp();
      var data :- ParseNStringBytesOptional();
      r := Success(BodySection(if section == [] then None else Some(section), origin, data));
    }

    method ParseAttValue(kind: G.AttKind) returns (r: Result<FetchAttribute>)
      requires Valid()
      modifies this
      ensures Valid() && Gives(r, G.AttValue(input, old(pos), old(itemsLeft), kind))
    {
      hide G.SpNumber, G.SpAtomList, G.Quoted, G.NStringBytes, G.Balanced, G.BodySectionRest;
      match kind
      case KUid =>
        var n :- ParseSpNumber();
        r := Success(Uid(n));
      case KFlags =>
        var l :- ParseSpAtomList();
        r := Success(Flags(l));
      case KInternalDate =>
        var _ :- ConsumeSp();
        var s :- ParseQuoted();
        r := Success(InternalDate(s));
      case KSize =>
        var n :- ParseSpNumber();
        r := Success(Rfc822Size(n));
      case KRfc822 =>
        var _ :- ConsumeSp();
        var d :- ParseNStringBytes();
        r := Success(Rfc822(d));
      case KHeader =>
        var _ :- ConsumeSp();
        var d :- ParseNStringBytes();
        r := Success(Rfc822Header(d));
      case KText =>
        var _ :- ConsumeSp();
        var d :- ParseNStringBytes();
        r := Success(Rfc822Text(d));
      case KEnvelope =>
        var _ :- ConsumeSp();
        var d :- ParseBalancedParens();
        r := Success(Envelope(d));
      case KBodyStructure =>
        var _ :- ConsumeSp();
        var d :- ParseBalancedParens();
        r := Success(BodyStructure(d));
      case KBody =>
        var bracket := TryConsumeByte(LBRACKET);
        if bracket {
          r := ParseBodySectionRest();
        } else {
          var _ :- ConsumeSp();
          var d :- ParseBalancedParens();
          r := Success(Body(d));
        }
      case KUnknown =>
        r := Failure(Malformed("unknown FETCH attribute"));
    }

    method ParseOneFetchAtt() returns (r: Result<FetchAttribute>)
      requires Valid()
      modifies this
      ensures Valid() && Gives(r, G.OneFetchAtt(input, old(pos), old(itemsLeft)))
    {
      hide G.FetchAttName, G.AttValue, G.AttKindOf;
      var name :- ParseFetchAttName();
      r := ParseAttValue(G.AttKindOf(name));
    }

    method ParseFetchMsgAtt() returns (r: Result<seq<FetchAttribute>>)
      requires Valid()
      modifies this
      ensures Valid() && Gives(r, G.FetchMsgAtt(input, old(pos), old(itemsLeft)))
    {
      hide G.OneFetchAtt;
      var _ :- ConsumeByte(LPAREN);
      var atts: seq<FetchAttribute> := [];
      var empty := TryConsumeByte(RPAREN);
      if empty {
        return Success(atts);
      }
      ghost var spec := G.FetchAttsRest(input, pos, itemsLeft, atts);
      while true
        invariant Valid()
        invariant G.FetchAttsRest(input, pos, itemsLeft, atts) == spec
        decreases |input| - pos
      {
        var att :- ParseOneFetchAtt();
        atts :- PushItem(atts, att);
        var c :- Peek();
        if c == SP {
          pos := pos + 1;
        } else if c == RPAREN {
          pos := pos + 1;
          return Success(atts);
        } else {
          return Failure(Malformed("expected SP or ) in FETCH atts"));
        }
      }
    }

    // -------------------------------------------------------------------------
    // Data responses
    // -------------------------------------------------------------------------

    /** Walk back to the byte after the previous CRLF, or to the start of the input. */
    method FindCurrentLineStart() returns (i: nat)
      requires Valid()
      ensures i == G.LineStart(input, pos)
    {
      i := pos;
      while i > 0 && !(i >= 2 && input[i - 2] == CR && input[i - 1] == LF)
        invariant i <= pos
        invariant G.LineStart(input, i) == G.LineStart(input, pos)
      {
        i := i - 1;
      }
    }

    /** Keep an unrecognised response as raw bytes from `lineStart`. */
    method FinishRawLine(lineStart: nat) returns (r: Result<Response>)
      requires Valid() && lineStart <= pos
      modifies this`pos
      ensures Valid() && Gives(r, G.RawLine(input, lineStart, old(pos), itemsLeft))
    {
      SkipWhile(LineChar);
      var line := input[lineStart..pos];
      var _ :- ConsumeCrlf();
      r := Success(Data(OtherData(line)));
    }

    method ParseNumericData() returns (r: Result<Response>)
      requires Valid()
      modifies this
      ensures Valid() && Gives(r, G.NumericData(input, old(pos), old(itemsLeft)))
    {
      hide G.Number, G.Atom, G.FetchMsgAtt, G.RawLine, G.NumericKindOf, G.LineStart;
      var n :- ParseNumber();
      var _ :- ConsumeSp();
      var name :- ParseAtom();
      var data: DataResponse;
      match G.NumericKindOf(name) {
        case KExists => data := Exists(n);
        case KRecent => data := Recent(n);
        case KExpunge => data := Expunge(n);
        case KFetch =>
          var _ :- ConsumeSp();
          var atts :- ParseFetchMsgAtt();
          data := Fetch(n, atts);
        case KOtherNumeric =>
          var lineStart := FindCurrentLineStart();
          r := FinishRawLine(lineStart);
          return;
      }
      var _ :- ConsumeCrlf();
      r := Success(Data(data));
    }

    method ParseListBody() returns (r: Result<(seq<bytes>, Option<bytes>, bytes)>)
      requires Valid()
      modifies this
      ensures Valid() && Gives(r, G.ListBody(input, old(pos), old(itemsLeft)))
    {
      hide G.SpAtomList, G.NString, G.AString;
      var flags :- ParseSpAtomList();
      var _ :- ConsumeSp();
      var delimiter :- ParseNString();
      var _ :- ConsumeSp();
      var name :- ParseAString();
      r := Success((flags, delimiter, name));
    }

    method ParseOneStatusItem() returns (r: Result<StatusItem>)
      requires Valid()
      modifies this`pos
      ensures Valid() && Gives(r, G.OneStatusItem(input, old(pos), itemsLeft))
    {
      hide G.Atom, G.SpNumber, G.StatusItemOf;
      var key :- ParseAtom();
      var value :- ParseSpNumber();
      r := Success(G.StatusItemOf(key, value));
    }

    method ParseStatusItems() returns (r: Result<seq<StatusItem>>)
      requires Valid()
      modifies this
      ensures Valid() && Gives(r, G.StatusItems(input, old(pos), old(itemsLeft)))
    {
      hide G.OneStatusItem;
      var _ :- ConsumeByte(LPAREN);
      var items: seq<StatusItem> := [];
      var empty := TryConsumeByte(RPAREN);
      if empty {
        return Success(items);
      }
      ghost var spec := G.StatusItemsRest(input, pos, itemsLeft, items);
      while true
        invariant Valid()
        invariant G.StatusItemsRest(input, pos, itemsLeft, items) == spec
        decreases |input| - pos
      {
        var item :- ParseOneStatusItem();
        items :- PushItem(items, item);
        var c :- Peek();
        if c == SP {
          pos := pos + 1;
        } else if c == RPAREN {
          pos := pos + 1;
          return Success(items);
        } else {
          return Failure(Malformed("expected SP or ) in STATUS items"));
        }
      }
    }

    method ParseSearchIds() returns (r: Result<seq<nat>>)
      requires Valid()
      modifies this`pos
      ensures Valid() && Gives(r, G.SearchRest(input, old(pos), itemsLeft, []))
    {
      hide G.Number;
      var ids: seq<nat> := [];
      ghost var spec := G.SearchRest(input, pos, itemsLeft, ids);
      var more := TryConsumeByte(SP);
      while more
        invariant Valid() && (more ==> pos > 0 && input[pos - 1] == SP)
        invariant G.SearchRest(input, if more then pos - 1 else pos, itemsLeft, ids) == spec
        invariant !more ==> !G.Next(input, pos, SP)
        decreases |input| - pos, more
      {
        var n :- ParseNumber();
        ids := ids + [n];
        more := TryConsumeByte(SP);
      }
      r := Success(ids);
    }

    method ParseNamedBody(kind: G.NamedKind) returns (r: Result<DataResponse>)
      requires Valid() && kind != G.KOtherNamed
      modifies this
      ensures Valid() && Gives(r, G.NamedBody(input, old(pos), old(itemsLeft), kind))
    {
      hide G.CapsRest, G.SearchRest, G.ListBody, G.SpAtomList, G.AString, G.StatusItems;
      match kind
      case KCapability =>
        var caps :- ParseCapabilities();
        r := Success(Capability(caps));
      case KList =>
        var b :- ParseListBody();
        r := Success(ListData(b.0, b.1, b.2));
      case KLsub =>
        var b :- ParseListBody();
        r := Success(Lsub(b.0, b.1, b.2));
      case KStatus =>
        var _ :- ConsumeSp();
        var mailbox :- ParseAString();
        var _ :- ConsumeSp();
        var items :- ParseStatusItems();
        r := Success(StatusData(mailbox, items));
      case KSearch =>
        var ids :- ParseSearchIds();
        r := Success(Search(ids));
      case KFlagsData =>
        var flags :- ParseSpAtomList();
        r := Success(FlagsData(flags));
    }

    method ParseNamedData() returns (r: Result<Response>)
      requires Valid()
      modifies this
      ensures Valid() && Gives(r, G.NamedData(input, old(pos), old(itemsLeft)))
    {
      hide G.Atom, G.NamedBody, G.RawLine, G.NamedKindOf;
      var lineStart := pos;
      var name :- ParseAtom();
      var kind := G.NamedKindOf(name);
      if kind == G.KOtherNamed {
        r := FinishRawLine(lineStart);
        return;
      }
      var data :- ParseNamedBody(kind);
      var _ :- ConsumeCrlf();
      r := Success(Data(data));
    }

    // -------------------------------------------------------------------------
    // Top level
    // -------------------------------------------------------------------------

    method ParseUntagged() returns (r: Result<Response>)
      requires Valid()
      modifies this
      ensures Valid() && Gives(r, G.Untagged(input, old(pos), old(itemsLeft)))
    {
      hide G.StatusKeyword, G.StatusRest, G.NumericData, G.NamedData;
      var _ :- ConsumeByte(STAR);
      var _ :- ConsumeSp();
      var status := TryParseStatusKeyword();
      if status.Some? {
        r := ParseStatusRest(None, status.value);
        return;
      }
      var c :- Peek();
      if IsDigit(c) {
        r := ParseNumericData();
      } else {
        r := ParseNamedData();
      }
    }

    method ParseResponse() returns (r: Result<Response>)
      requires Valid() && pos == 0 && itemsLeft == G.MAX_ITEMS_PER_RESPONSE
      modifies this
      ensures Valid() && Gives(r, G.ParseResponse(input))
    {
      hide G.ContinueReq, G.Untagged, G.Tagged;
      if IsEof() {
        return Failure(Incomplete);
      }
      var c := input[pos];
      if c == PLUS {
        r := ParseContinueReq();
      } else if c == STAR {
        r := ParseUntagged();
      } else {
        r := ParseTagged();
      }
    }
  }

  /** Parse one response: the unparsed remainder and the response, or an error. */
  method ParseResponse(input: bytes) returns (r: Result<(bytes, Response)>)
    ensures match G.ParseResponse(input)
            case Ok(response, consumed, _) => r == Success((input[consumed..], response))
            case Err(e) => r == Failure(e)
  {
    hide G.ParseResponse;
    var parser := new Parser(input);
    var response :- parser.ParseResponse();
    r := Success((input[parser.pos..], response));
  }
}
