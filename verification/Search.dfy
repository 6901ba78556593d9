/** Search criteria: the tree a caller builds, the text sent for it, and what a server that reads the
    text by section 6.4.4 of RFC 9051 takes it to mean. */
module Search {
  import opened Bytes
  import Grammar
  import Commands
  import Wire
  import Words

  datatype SearchKey =
    | From(text: bytes)
    | To(text: bytes)
    | Subject(text: bytes)
    | Body(text: bytes)
    | Text(text: bytes)
    | All
    | Answered
    | Deleted
    | Draft
    | Flagged
    | Recent
    | Seen
    | Unanswered
    | Undeleted
    | Undraft
    | Unflagged
    | Unseen
    | And(keys: seq<SearchKey>)
    | Or(left: SearchKey, right: SearchKey)
    | Not(key: SearchKey)

  const OR_WORD: bytes := [79, 82]
  const NOT_WORD: bytes := [78, 79, 84]
  const ALL_WORD: bytes := [65, 76, 76]
  const ANSWERED_WORD: bytes := [65, 78, 83, 87, 69, 82, 69, 68]
  const DELETED_WORD: bytes := [68, 69, 76, 69, 84, 69, 68]
  const DRAFT_WORD: bytes := [68, 82, 65, 70, 84]
  const FLAGGED_WORD: bytes := [70, 76, 65, 71, 71, 69, 68]
  const RECENT_WORD: bytes := [82, 69, 67, 69, 78, 84]
  const SEEN_WORD: bytes := [83, 69, 69, 78]
  const UNANSWERED_WORD: bytes := [85, 78, 65, 78, 83, 87, 69, 82, 69, 68]
  const UNDELETED_WORD: bytes := [85, 78, 68, 69, 76, 69, 84, 69, 68]
  const UNDRAFT_WORD: bytes := [85, 78, 68, 82, 65, 70, 84]
  const UNFLAGGED_WORD: bytes := [85, 78, 70, 76, 65, 71, 71, 69, 68]
  const UNSEEN_WORD: bytes := [85, 78, 83, 69, 69, 78]
  const FROM_WORD: bytes := [70, 82, 79, 77]
  const TO_WORD: bytes := [84, 79]
  const SUBJECT_WORD: bytes := [83, 85, 66, 74, 69, 67, 84]
  const BODY_WORD: bytes := [66, 79, 68, 89]
  const TEXT_WORD: bytes := [84, 69, 88, 84]

  // ---------------------------------------------------------------------------
  // Printing
  // ---------------------------------------------------------------------------

  /** The keyword a criterion is printed with. */
  function WordOf(k: SearchKey): bytes
    requires !k.And?
  {
    match k
    case From(_) => FROM_WORD
    case To(_) => TO_WORD
    case Subject(_) => SUBJECT_WORD
    case Body(_) => BODY_WORD
    case Text(_) => TEXT_WORD
    case All => ALL_WORD
    case Answered => ANSWERED_WORD
    case Deleted => DELETED_WORD
    case Draft => DRAFT_WORD
    case Flagged => FLAGGED_WORD
    case Recent => RECENT_WORD
    case Seen => SEEN_WORD
    case Unanswered => UNANSWERED_WORD
    case Undeleted => UNDELETED_WORD
    case Undraft => UNDRAFT_WORD
    case Unflagged => UNFLAGGED_WORD
    case Unseen => UNSEEN_WORD
    case Or(_, _) => OR_WORD
    case Not(_) => NOT_WORD
  }

  predicate HasText(k: SearchKey) {
    k.From? || k.To? || k.Subject? || k.Body? || k.Text?
  }

  /** A criterion that is a bare keyword. */
  predicate IsMark(k: SearchKey) {
    !HasText(k) && !k.And? && !k.Or? && !k.Not?
  }

  /** `to_imap_string`. */
  function Print(k: SearchKey): bytes {
    match k
    case And(keys) => Wire.Join(PrintAll(keys))
    case Or(left, right) =>
      OR_WORD + [SP] + [LPAREN] + Print(left) + [RPAREN] + [SP] + [LPAREN] + Print(right) + [RPAREN]
    case Not(key) => NOT_WORD + [SP] + [LPAREN] + Print(key) + [RPAREN]
    case _ => if HasText(k) then WordOf(k) + [SP] + Wire.QuotedForm(k.text) else WordOf(k)
  }

  function PrintAll(keys: seq<SearchKey>): seq<bytes> {
    if |keys| == 0 then [] else [Print(keys[0])] + PrintAll(keys[1..])
  }

  /** Texts are strings, that is, well-formed UTF-8. */
  predicate TextsAreStrings(k: SearchKey) {
    match k
    case And(keys) => forall x :: x in keys ==> TextsAreStrings(x)
    case Or(left, right) => TextsAreStrings(left) && TextsAreStrings(right)
    case Not(key) => TextsAreStrings(key)
    case _ => HasText(k) ==> Utf8(k.text)
  }

  /** No conjunction is empty. */
  predicate NoEmptyAnd(k: SearchKey) {
    match k
    case And(keys) => |keys| > 0 && forall x :: x in keys ==> NoEmptyAnd(x)
    case Or(left, right) => NoEmptyAnd(left) && NoEmptyAnd(right)
    case Not(key) => NoEmptyAnd(key)
    case _ => true
  }

  predicate TextsAreOneLine(k: SearchKey) {
    match k
    case And(keys) => forall x :: x in keys ==> TextsAreOneLine(x)
    case Or(left, right) => TextsAreOneLine(left) && TextsAreOneLine(right)
    case Not(key) => TextsAreOneLine(key)
    case _ => HasText(k) ==> Commands.IsOneLine(k.text)
  }

  // ---------------------------------------------------------------------------
  // Meaning
  // ---------------------------------------------------------------------------

  datatype Flag = AnsweredFlag | DeletedFlag | DraftFlag | FlaggedFlag | RecentFlag | SeenFlag
  datatype Field = FromField | ToField | SubjectField | BodyField | TextField

  /** What searching can observe of a message: its flags, and which texts its fields contain. */
  datatype Message = Message(flags: set<Flag>, contains: (Field, bytes) -> bool)

  predicate Matches(k: SearchKey, m: Message) {
    match k
    case From(text) => m.contains(FromField, text)
    case To(text) => m.contains(ToField, text)
    case Subject(text) => m.contains(SubjectField, text)
    case Body(text) => m.contains(BodyField, text)
    case Text(text) => m.contains(TextField, text)
    case All => true
    case Answered => AnsweredFlag in m.flags
    case Deleted => DeletedFlag in m.flags
    case Draft => DraftFlag in m.flags
    case Flagged => FlaggedFlag in m.flags
    case Recent => RecentFlag in m.flags
    case Seen => SeenFlag in m.flags
    case Unanswered => AnsweredFlag !in m.flags
    case Undeleted => DeletedFlag !in m.flags
    case Undraft => DraftFlag !in m.flags
    case Unflagged => FlaggedFlag !in m.flags
    case Unseen => SeenFlag !in m.flags
    case And(keys) => MatchesAll(keys, m)
    case Or(left, right) => Matches(left, m) || Matches(right, m)
    case Not(key) => !Matches(key, m)
  }

  predicate MatchesAll(keys: seq<SearchKey>, m: Message) {
    |keys| == 0 || (Matches(keys[0], m) && MatchesAll(keys[1..], m))
  }

  // ---------------------------------------------------------------------------
  // Reading, by the grammar
  // ---------------------------------------------------------------------------

  function TextKeyOf(word: bytes, text: bytes): Option<SearchKey> {
    if EqCi(word, Words.FROM) then Some(From(text))
    else if EqCi(word, Words.TO) then Some(To(text))
    else if EqCi(word, Words.SUBJECT) then Some(Subject(text))
    else if EqCi(word, Words.BODY) then Some(Body(text))
    else if EqCi(word, Words.TEXT) then Some(Text(text))
    else None
  }

  function MarkOf(word: bytes): Option<SearchKey> {
    if EqCi(word, Words.ALL) then Some(All)
    else if EqCi(word, Words.ANSWERED) then Some(Answered)
    else if EqCi(word, Words.DELETED) then Some(Deleted)
    else if EqCi(word, Words.DRAFT) then Some(Draft)
    else if EqCi(word, Words.FLAGGED) then Some(Flagged)
    else if EqCi(word, Words.RECENT) then Some(Recent)
    else if EqCi(word, Words.SEEN) then Some(Seen)
    else if EqCi(word, Words.UNANSWERED) then Some(Unanswered)
    else if EqCi(word, Words.UNDELETED) then Some(Undeleted)
    else if EqCi(word, Words.UNDRAFT) then Some(Undraft)
    else if EqCi(word, Words.UNFLAGGED) then Some(Unflagged)
    else if EqCi(word, Words.UNSEEN) then Some(Unseen)
    else None
  }

  /** astring: a quoted string (unescaped), a literal or an atom. */
  function ReadText(a: bytes, i: nat): (r: Option<(bytes, nat)>)
    requires i <= |a|
    ensures r.Some? ==> i < r.value.1 <= |a|
  {
    if Grammar.Next(a, i, DQUOTE) then
      match Grammar.Quoted(a, i, 0)
      case Ok(v, q, _) => Some((Wire.Unescape(v), q))
      case Err(_) => None
    else if Grammar.Next(a, i, LBRACE) then
      match Grammar.LiteralText(a, i, 0)
      case Ok(v, q, _) => Some((v, q))
      case Err(_) => None
    else
      var j := Scan(a, i, AtomChar);
      if i < j then Some((a[i..j], j)) else None
  }

  /** search-key: a parenthesised list, `OR key key`, `NOT key`, a keyword with a text, or a bare
      keyword. */
  function ReadKey(a: bytes, i: nat): (r: Option<(SearchKey, nat)>)
    requires i <= |a|
    ensures r.Some? ==> i < r.value.1 <= |a|
    decreases |a| - i, 1
  {
    if Grammar.Next(a, i, LPAREN) then
      match ReadKeys(a, i + 1)
      case None => None
      case Some((keys, e)) => if Grammar.Next(a, e, RPAREN) then Some((And(keys), e + 1)) else None
    else
      var j := Scan(a, i, AtomChar);
      ReadAfterWord(a, i, j)
  }

  function ReadAfterWord(a: bytes, i: nat, j: nat): (r: Option<(SearchKey, nat)>)
    requires i <= j <= |a|
    ensures r.Some? ==> i < r.value.1 <= |a|
    decreases |a| - j, 0
  {
    var word := a[i..j];
    if EqCi(word, Words.OR) then
      if !Grammar.Next(a, j, SP) then None
      else
        match ReadKey(a, j + 1)
        case None => None
        case Some((left, e)) =>
          if !Grammar.Next(a, e, SP) then None
          else
            match ReadKey(a, e + 1)
            case None => None
            case Some((right, f)) => Some((Or(left, right), f))
    else if EqCi(word, Words.NOT) then
      if !Grammar.Next(a, j, SP) then None
      else
        match ReadKey(a, j + 1)
        case None => None
        case Some((key, e)) => Some((Not(key), e))
    else if TextKeyOf(word, []).Some? then
      if !Grammar.Next(a, j, SP) then None
      else
        match ReadText(a, j + 1)
        case None => None
        case Some((text, e)) => Some((TextKeyOf(word, text).value, e))
    else
      match MarkOf(word)
      case None => None
      case Some(key) => Some((key, j))
  }

  /** search-key *(SP search-key) */
  function ReadKeys(a: bytes, i: nat): (r: Option<(seq<SearchKey>, nat)>)
    requires i <= |a|
    ensures r.Some? ==> i < r.value.1 <= |a|
    decreases |a| - i, 2
  {
    match ReadKey(a, i)
    case None => None
    case Some((key, e)) => Prefixed(a, e, [key], if Grammar.Next(a, e, SP) then ReadKeys(a, e + 1) else None)
  }

  /** Keys already read, up to `e`, then the ones after a space if there is one. */
  function Prefixed(a: bytes, e: nat, keys: seq<SearchKey>, rest: Option<(seq<SearchKey>, nat)>)
    : Option<(seq<SearchKey>, nat)>
  {
    if !Grammar.Next(a, e, SP) then Some((keys, e))
    else
      match rest
      case None => None
      case Some((more, f)) => Some((keys + more, f))
  }

  /** The criteria of a whole `SEARCH` argument; a message has to match all of them. */
  function ReadProgram(s: bytes): Option<seq<SearchKey>> {
    match ReadKeys(s, 0)
    case None => None
    case Some((keys, e)) => if e == |s| then Some(keys) else None
  }

  // ---------------------------------------------------------------------------
  // Reading what was printed
  // ---------------------------------------------------------------------------

  /** The criteria a server reads off the printed text: conjunctions are flattened into the list
      around them, and operands come back as parenthesised lists. */
  function Flat(k: SearchKey): (r: seq<SearchKey>)
    ensures !k.And? ==> |r| == 1
  {
    match k
    case And(keys) => FlatAll(keys)
    case Or(left, right) => [Or(And(Flat(left)), And(Flat(right)))]
    case Not(key) => [Not(And(Flat(key)))]
    case _ => [k]
  }

  function FlatAll(keys: seq<SearchKey>): seq<SearchKey> {
    if |keys| == 0 then [] else Flat(keys[0]) + FlatAll(keys[1..])
  }

  predicate Readable(k: SearchKey) {
    NoEmptyAnd(k) && TextsAreOneLine(k)
  }

  /** End of the text, or a delimiter. */
  predicate Ends(a: bytes, e: nat) {
    e == |a| || (e < |a| && (a[e] == SP || a[e] == RPAREN))
  }

  lemma Differ(x: bytes, y: bytes, k: nat)
    requires |x| == |y| ==> k < |x| && Lower(x[k]) != Lower(y[k])
    ensures !EqCi(x, y)
  {
  }

  /** Keywords of one length that share their first letter, or have it to tell them apart. */
  lemma TextWords(k: SearchKey)
    requires HasText(k)
    ensures var w := WordOf(k);
            && !EqCi(w, OR_WORD) && !EqCi(w, NOT_WORD)
            && TextKeyOf(w, []).Some? && TextKeyOf(w, k.text) == Some(k)
  {
    var w := WordOf(k);
    Differ(w, OR_WORD, 0);
    Differ(w, NOT_WORD, 0);
    match k
    case From(_) =>
    case To(_) =>
    case Subject(_) =>
    case Body(_) => Differ(w, FROM_WORD, 0);
    case Text(_) => Differ(w, FROM_WORD, 0); Differ(w, BODY_WORD, 0);
  }

  lemma MarkIsNoOther(k: SearchKey)
    requires IsMark(k)
    ensures var w := WordOf(k);
            !EqCi(w, OR_WORD) && !EqCi(w, NOT_WORD) && TextKeyOf(w, []) == None
  {
    var w := WordOf(k);
    Differ(w, OR_WORD, 0);
    Differ(w, NOT_WORD, 0);
    Differ(w, FROM_WORD, 0);
    Differ(w, TO_WORD, 0);
    Differ(w, SUBJECT_WORD, 0);
    Differ(w, BODY_WORD, 0);
    Differ(w, TEXT_WORD, 0);
  }

  lemma MarkWords(k: SearchKey)
    requires IsMark(k)
    ensures MarkOf(WordOf(k)) == Some(k)
  {
    var w := WordOf(k);
    match k
    case Flagged => Differ(w, DELETED_WORD, 0);
    case Undraft => Differ(w, DELETED_WORD, 0); Differ(w, FLAGGED_WORD, 0);
    case Unflagged => Differ(w, UNDELETED_WORD, 2);
    case Unseen => Differ(w, RECENT_WORD, 0);
    case _ =>
  }

  lemma WordIsAtom(k: SearchKey)
    requires !k.And?
    ensures |WordOf(k)| > 0 && AllIn(AtomChar, WordOf(k))
  {
  }

  lemma WordAt(a: bytes, i: nat, k: SearchKey)
    requires !k.And? && At(a, i, WordOf(k)) && Ends(a, i + |WordOf(k)|)
    ensures ReadKey(a, i) == ReadAfterWord(a, i, i + |WordOf(k)|) && a[i..i + |WordOf(k)|] == WordOf(k)
  {
    hide At, WordOf, ReadAfterWord, ReadKeys;
    WordIsAtom(k);
    AtSlice(a, i, WordOf(k));
    AtFirst(a, i, WordOf(k));
    assert InClass(AtomChar, WordOf(k)[0]);
    ScanAt(a, i, AtomChar, WordOf(k));
  }

  lemma NothingAt(a: bytes, i: nat)
    requires i <= |a| && Ends(a, i)
    ensures ReadKeys(a, i) == None
  {
    assert Scan(a, i, AtomChar) == i;
    assert a[i..i] == [];
    assert ReadAfterWord(a, i, i) == None;
  }

  lemma TextKeyAt(a: bytes, i: nat, k: SearchKey)
    requires HasText(k) && TextsAreStrings(k)
    requires At(a, i, Print(k)) && Ends(a, i + |Print(k)|)
    ensures ReadKey(a, i) == if Readable(k) then Some((k, i + |Print(k)|)) else None
  {
    hide At, Utf8, WordOf, TextKeyOf, ReadKey, Grammar.Quoted, Wire.QuotedForm, Wire.Escape;
    hide Wire.Unescape, Commands.IsOneLine;
    var w := WordOf(k);
    var q := Wire.QuotedForm(k.text);
    assert Print(k) == w + ([SP] + q);
    AtConcat(a, i, w, [SP] + q);
    AtByte(a, i + |w|, SP, q);
    WordAt(a, i, k);
    TextWords(k);
    Wire.QuotedFormAt(a, i + |w| + 1, 0, k.text);
    Wire.UnescapeEscape(k.text);
    QuotedFormStarts(a, i + |w| + 1, k.text);
  }

  lemma QuotedFormStarts(a: bytes, i: nat, text: bytes)
    requires At(a, i, Wire.QuotedForm(text))
    ensures Grammar.Next(a, i, DQUOTE)
  {
    AtFirst(a, i, Wire.QuotedForm(text));
  }

  lemma MarkAt(a: bytes, i: nat, k: SearchKey)
    requires IsMark(k) && At(a, i, Print(k)) && Ends(a, i + |Print(k)|)
    ensures ReadKey(a, i) == Some((k, i + |Print(k)|)) && Readable(k)
  {
    hide At, WordOf, TextKeyOf, MarkOf, ReadKey;
    WordAt(a, i, k);
    MarkIsNoOther(k);
    MarkWords(k);
  }

  lemma OperatorsAreNot(k: SearchKey)
    requires k.Or? || k.Not?
    ensures EqCi(WordOf(k), OR_WORD) == k.Or? && EqCi(WordOf(k), NOT_WORD) == k.Not?
  {
  }

  function InParens(k: SearchKey): bytes {
    [LPAREN] + Print(k) + [RPAREN]
  }

  lemma {:induction false} ParensAt(a: bytes, i: nat, k: SearchKey)
    requires TextsAreStrings(k) && At(a, i, InParens(k))
    ensures ReadKey(a, i) == if Readable(k) then Some((And(Flat(k)), i + |InParens(k)|)) else None
    decreases k, 2
  {
    hide At, Print, Readable, ReadKeys, Flat, ReadAfterWord;
    var body := Print(k) + [RPAREN];
    assert InParens(k) == [LPAREN] + body;
    AtByte(a, i, LPAREN, body);
    AtConcat(a, i + 1, Print(k), [RPAREN]);
    AtFirst(a, i + 1 + |Print(k)|, [RPAREN]);
    PrintedKeysAt(a, i + 1, k);
  }

  lemma {:induction false} NotAt(a: bytes, i: nat, k: SearchKey)
    requires k.Not? && TextsAreStrings(k) && At(a, i, Print(k))
    ensures ReadKey(a, i) == if Readable(k) then Some((Flat(k)[0], i + |Print(k)|)) else None
    decreases k, 0
  {
    hide At, ReadKey, InParens, Flat, WordOf;
    var w := WordOf(k);
    var inner := InParens(k.key);
    NotParts(k);
    assert Print(k) == w + ([SP] + inner);
    AtConcat(a, i, w, [SP] + inner);
    AtByte(a, i + |w|, SP, inner);
    WordAt(a, i, k);
    OperatorsAreNot(k);
    ParensAt(a, i + |w| + 1, k.key);
    FlatOperator(k);
  }

  lemma NotParts(k: SearchKey)
    requires k.Not?
    ensures Print(k) == WordOf(k) + [SP] + InParens(k.key)
  {
    hide Print;
    assert Print(k) == NOT_WORD + [SP] + [LPAREN] + Print(k.key) + [RPAREN] by { PrintOperator(k); }
  }

  lemma PrintOperator(k: SearchKey)
    ensures k.Not? ==> Print(k) == NOT_WORD + [SP] + [LPAREN] + Print(k.key) + [RPAREN]
    ensures k.Or? ==>
              Print(k) == OR_WORD + [SP] + [LPAREN] + Print(k.left) + [RPAREN]
                          + [SP] + [LPAREN] + Print(k.right) + [RPAREN]
  {
  }

  lemma FlatOperator(k: SearchKey)
    ensures k.Not? ==> Flat(k) == [Not(And(Flat(k.key)))]
    ensures k.Or? ==> Flat(k) == [Or(And(Flat(k.left)), And(Flat(k.right)))]
  {
  }

  lemma OrParts(k: SearchKey)
    requires k.Or?
    ensures Print(k) == WordOf(k) + ([SP] + (InParens(k.left) + ([SP] + InParens(k.right))))
  {
    hide Print;
    PrintOperator(k);
    RegroupOr(OR_WORD, Print(k.left), Print(k.right));
  }

  lemma RegroupOr(w: bytes, l: bytes, r: bytes)
    ensures w + [SP] + [LPAREN] + l + [RPAREN] + [SP] + [LPAREN] + r + [RPAREN]
         == w + ([SP] + (([LPAREN] + l + [RPAREN]) + ([SP] + ([LPAREN] + r + [RPAREN]))))
  {
  }

  lemma {:induction false} OrAt(a: bytes, i: nat, k: SearchKey)
    requires k.Or? && TextsAreStrings(k) && At(a, i, Print(k))
    ensures ReadKey(a, i) == if Readable(k) then Some((Flat(k)[0], i + |Print(k)|)) else None
    decreases k, 0
  {
    hide At, ReadKey, Print, InParens, Flat, WordOf;
    var w := WordOf(k);
    var left, right := InParens(k.left), InParens(k.right);
    OrParts(k);
    AtConcat(a, i, w, [SP] + (left + ([SP] + right)));
    AtByte(a, i + |w|, SP, left + ([SP] + right));
    WordAt(a, i, k);
    OperatorsAreNot(k);
    var j := i + |w| + 1;
    AtConcat(a, j, left, [SP] + right);
    AtByte(a, j + |left|, SP, right);
    ParensAt(a, j, k.left);
    ParensAt(a, j + |left| + 1, k.right);
    FlatOperator(k);
  }

  /** What follows a printed criterion does not change how it is read. */
  lemma {:induction false} PrintedKeysAt(a: bytes, i: nat, k: SearchKey)
    requires TextsAreStrings(k) && At(a, i, Print(k)) && Ends(a, i + |Print(k)|)
    ensures var e := i + |Print(k)|;
            ReadKeys(a, i) ==
            if !Readable(k) then None
            else Prefixed(a, e, Flat(k), if Grammar.Next(a, e, SP) then ReadKeys(a, e + 1) else None)
    decreases k, 1
  {
    hide At, Print, ReadKey, Readable, Flat, WordOf;
    if k.And? {
      AndIsList(k);
      ListAt(a, i, k.keys);
    } else if k.Or? {
      OrAt(a, i, k);
      assert Flat(k) == [Flat(k)[0]];
    } else if k.Not? {
      NotAt(a, i, k);
      assert Flat(k) == [Flat(k)[0]];
    } else {
      SimpleFlat(k);
      if HasText(k) {
        TextKeyAt(a, i, k);
      } else {
        MarkAt(a, i, k);
      }
    }
  }

  lemma SimpleFlat(k: SearchKey)
    ensures HasText(k) || IsMark(k) ==> Flat(k) == [k]
  {
  }

  ghost predicate AllStrings(keys: seq<SearchKey>) {
    forall x :: x in keys ==> TextsAreStrings(x)
  }

  ghost predicate AllReadable(keys: seq<SearchKey>) {
    forall x :: x in keys ==> Readable(x)
  }

  lemma AndIsList(k: SearchKey)
    requires k.And?
    ensures Print(k) == Wire.Join(PrintAll(k.keys)) && Flat(k) == FlatAll(k.keys)
    ensures Readable(k) <==> |k.keys| > 0 && AllReadable(k.keys)
    ensures TextsAreStrings(k) <==> AllStrings(k.keys)
  {
  }

  lemma {:induction false} ListAt(a: bytes, i: nat, keys: seq<SearchKey>)
    requires AllStrings(keys) && At(a, i, Wire.Join(PrintAll(keys))) && Ends(a, i + |Wire.Join(PrintAll(keys))|)
    ensures var e := i + |Wire.Join(PrintAll(keys))|;
            ReadKeys(a, i) ==
            if |keys| == 0 || !AllReadable(keys) then None
            else Prefixed(a, e, FlatAll(keys), if Grammar.Next(a, e, SP) then ReadKeys(a, e + 1) else None)
    decreases keys, 0
  {
    hide At, Print, ReadKeys, Readable, Flat, TextsAreStrings;
    AtSlice(a, i, Wire.Join(PrintAll(keys)));
    if |keys| == 0 {
      NothingAt(a, i);
    } else {
      var first := Print(keys[0]);
      AllReadableFirst(keys);
      assert keys[0] in keys;
      if |keys| == 1 {
        assert PrintAll(keys) == [first];
        assert FlatAll(keys) == Flat(keys[0]);
        PrintedKeysAt(a, i, keys[0]);
      } else {
        var rest := Wire.Join(PrintAll(keys[1..]));
        assert PrintAll(keys)[1..] == PrintAll(keys[1..]);
        assert Wire.Join(PrintAll(keys)) == first + ([SP] + rest);
        AtConcat(a, i, first, [SP] + rest);
        AtByte(a, i + |first|, SP, rest);
        PrintedKeysAt(a, i, keys[0]);
        ListAt(a, i + |first| + 1, keys[1..]);
        PrefixedTwice(a, i + |first|, keys);
      }
    }
  }

  lemma AllReadableFirst(keys: seq<SearchKey>)
    requires |keys| > 0
    ensures AllReadable(keys) <==> Readable(keys[0]) && AllReadable(keys[1..])
  {
    hide Readable;
    assert keys == [keys[0]] + keys[1..];
  }

  lemma PrefixedTwice(a: bytes, e: nat, keys: seq<SearchKey>)
    requires |keys| > 0
    ensures forall more :: Flat(keys[0]) + (FlatAll(keys[1..]) + more) == FlatAll(keys) + more
  {
  }

  // ---------------------------------------------------------------------------
  // Meaning kept
  // ---------------------------------------------------------------------------

  lemma {:induction false} MatchesAppend(x: seq<SearchKey>, y: seq<SearchKey>, m: Message)
    ensures MatchesAll(x + y, m) <==> MatchesAll(x, m) && MatchesAll(y, m)
  {
    if |x| == 0 {
      assert x + y == y;
    } else {
      assert (x + y)[1..] == x[1..] + y;
      MatchesAppend(x[1..], y, m);
    }
  }

  lemma {:induction false} FlatMeans(k: SearchKey, m: Message)
    ensures MatchesAll(Flat(k), m) == Matches(k, m)
  {
    if k.And? {
      FlatAllMeans(k.keys, m);
    } else if k.Or? {
      FlatMeans(k.left, m);
      FlatMeans(k.right, m);
      OperatorMeans(k, m);
    } else if k.Not? {
      FlatMeans(k.key, m);
      OperatorMeans(k, m);
    } else {
      hide Matches;
      MatchesOne(k, m);
    }
  }

  lemma OperatorMeans(k: SearchKey, m: Message)
    requires k.Or? ==> MatchesAll(Flat(k.left), m) == Matches(k.left, m)
    requires k.Or? ==> MatchesAll(Flat(k.right), m) == Matches(k.right, m)
    requires k.Not? ==> MatchesAll(Flat(k.key), m) == Matches(k.key, m)
    requires k.Or? || k.Not?
    ensures MatchesAll(Flat(k), m) == Matches(k, m)
  {
    FlatOperator(k);
    hide Flat;
    MatchesOne(Flat(k)[0], m);
  }

  lemma MatchesOne(k: SearchKey, m: Message)
    ensures MatchesAll([k], m) == Matches(k, m)
  {
  }

  lemma {:induction false} FlatAllMeans(keys: seq<SearchKey>, m: Message)
    ensures MatchesAll(FlatAll(keys), m) == MatchesAll(keys, m)
  {
    if |keys| > 0 {
      FlatMeans(keys[0], m);
      FlatAllMeans(keys[1..], m);
      MatchesAppend(Flat(keys[0]), FlatAll(keys[1..]), m);
    }
  }

  /** The server can read the printed text exactly when no conjunction is empty and no text spans
      lines; what it reads is the flattened tree. */
  lemma PrintedIsRead(k: SearchKey)
    requires TextsAreStrings(k)
    ensures ReadProgram(Print(k)) == if Readable(k) then Some(Flat(k)) else None
  {
    hide ReadKeys, Print, Readable, Flat;
    assert Print(k)[0..0 + |Print(k)|] == Print(k);
    PrintedKeysAt(Print(k), 0, k);
  }

  /** Printing keeps the meaning: the server's reading matches the very messages the caller's tree
      does. */
  lemma PrintingKeepsMeaning(k: SearchKey, m: Message)
    requires TextsAreStrings(k) && Readable(k)
    ensures ReadProgram(Print(k)).Some? && MatchesAll(ReadProgram(Print(k)).value, m) == Matches(k, m)
  {
    hide ReadProgram, Print, Readable, Flat;
    PrintedIsRead(k);
    FlatMeans(k, m);
  }

  // ---------------------------------------------------------------------------
  // What the client agrees to send
  // ---------------------------------------------------------------------------

  lemma OneLineConcat(x: bytes, y: bytes)
    ensures Commands.IsOneLine(x + y) <==> Commands.IsOneLine(x) && Commands.IsOneLine(y)
  {
    var z := x + y;
    if Commands.IsOneLine(z) {
      assert forall k :: 0 <= k < |x| ==> x[k] == z[k];
      assert forall k :: 0 <= k < |y| ==> y[k] == z[|x| + k];
    }
  }

  lemma {:induction false} EscapeOneLine(s: bytes)
    ensures Commands.IsOneLine(Wire.Escape(s)) <==> Commands.IsOneLine(s)
  {
    hide Commands.IsOneLine;
    if |s| > 0 {
      EscapeOneLine(s[1..]);
      OneLineConcat([s[0]], s[1..]);
      assert s == [s[0]] + s[1..];
      OneLineConcat(if Wire.Special(s[0]) then [BACKSLASH, s[0]] else [s[0]], Wire.Escape(s[1..]));
      SpecialOneLine(s[0]);
    }
  }

  lemma SpecialOneLine(b: byte)
    ensures Wire.Special(b) ==> Commands.IsOneLine([b]) && Commands.IsOneLine([BACKSLASH, b])
  {
  }

  lemma FixedOneLine(k: SearchKey)
    ensures Commands.IsOneLine([SP]) && Commands.IsOneLine([LPAREN]) && Commands.IsOneLine([RPAREN])
    ensures Commands.IsOneLine([DQUOTE]) && Commands.IsOneLine([])
    ensures !k.And? ==> Commands.IsOneLine(WordOf(k))
  {
    if !k.And? {
      WordIsAtom(k);
      hide WordOf;
      assert forall j :: 0 <= j < |WordOf(k)| ==> InClass(AtomChar, WordOf(k)[j]);
    }
  }

  lemma ParensOneLine(k: SearchKey)
    ensures Commands.IsOneLine(InParens(k)) <==> Commands.IsOneLine(Print(k))
  {
    hide Print, Commands.IsOneLine;
    FixedOneLine(k);
    OneLineConcat([LPAREN], Print(k));
    OneLineConcat([LPAREN] + Print(k), [RPAREN]);
  }

  lemma {:induction false} PrintOneLine(k: SearchKey)
    ensures Commands.IsOneLine(Print(k)) <==> TextsAreOneLine(k)
  {
    hide Commands.IsOneLine, InParens, WordOf;
    FixedOneLine(k);
    if k.And? {
      ListOneLine(k.keys);
    } else if k.Or? {
      PrintOneLine(k.left);
      PrintOneLine(k.right);
      ParensOneLine(k.left);
      ParensOneLine(k.right);
      OrParts(k);
      var right := [SP] + InParens(k.right);
      OneLineConcat([SP], InParens(k.right));
      OneLineConcat(InParens(k.left), right);
      OneLineConcat([SP], InParens(k.left) + right);
      OneLineConcat(WordOf(k), [SP] + (InParens(k.left) + right));
    } else if k.Not? {
      PrintOneLine(k.key);
      ParensOneLine(k.key);
      NotParts(k);
      OneLineConcat(WordOf(k), [SP]);
      OneLineConcat(WordOf(k) + [SP], InParens(k.key));
    } else if HasText(k) {
      EscapeOneLine(k.text);
      OneLineConcat([DQUOTE], Wire.Escape(k.text));
      OneLineConcat([DQUOTE] + Wire.Escape(k.text), [DQUOTE]);
      OneLineConcat(WordOf(k), [SP]);
      OneLineConcat(WordOf(k) + [SP], Wire.QuotedForm(k.text));
    }
  }

  lemma {:induction false} ListOneLine(keys: seq<SearchKey>)
    ensures Commands.IsOneLine(Wire.Join(PrintAll(keys))) <==> forall x :: x in keys ==> TextsAreOneLine(x)
  {
    hide Commands.IsOneLine, Print, TextsAreOneLine;
    FixedOneLine(All);
    if |keys| > 0 {
      PrintOneLine(keys[0]);
      ListOneLine(keys[1..]);
      assert keys == [keys[0]] + keys[1..];
      if |keys| == 1 {
        assert PrintAll(keys) == [Print(keys[0])];
      } else {
        var rest := Wire.Join(PrintAll(keys[1..]));
        assert PrintAll(keys)[1..] == PrintAll(keys[1..]);
        OneLineConcat(Print(keys[0]), [SP]);
        OneLineConcat(Print(keys[0]) + [SP], rest);
      }
    }
  }

  /** Among the queries that pass the client's check for line breaks, those with an empty
      conjunction are exactly the ones a server cannot read. */
  lemma SentQueryIsRead(k: SearchKey)
    requires TextsAreStrings(k) && Commands.IsOneLine(Print(k))
    ensures ReadProgram(Print(k)).Some? <==> NoEmptyAnd(k)
  {
    hide ReadProgram, Print, NoEmptyAnd, TextsAreOneLine, Commands.IsOneLine;
    PrintedIsRead(k);
    PrintOneLine(k);
  }

  /** `NOT ()`: a query the client sends and no server can read. */
  const NOT_NOTHING: bytes := [78, 79, 84, 32, 40, 41]

  lemma EmptyConjunctionUnreadable()
    ensures Print(Not(And([]))) == NOT_NOTHING
    ensures Commands.IsOneLine(NOT_NOTHING) && ReadProgram(NOT_NOTHING) == None
  {
    hide ReadProgram;
    var k := Not(And([]));
    assert Print(And([])) == [];
    assert Print(k) == NOT_NOTHING;
    assert Commands.IsOneLine(NOT_NOTHING);
    SentQueryIsRead(k);
    assert !NoEmptyAnd(And([]));
  }
}
