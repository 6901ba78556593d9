/** Every kind of response the parser recognises, written by the grammar of section 9 of RFC 9051 and
    followed by anything, parses back to what was written; and nothing but CRLF may end it. */
module ResponseRoundTrip {
  import opened Bytes
  import opened Ast
  import opened Grammar
  import opened Stability
  import opened BalancedValues
  import opened Forms
  import opened FetchRoundTrip
  import Wire
  import Words

  // ---------------------------------------------------------------------------
  // Lists
  // ---------------------------------------------------------------------------

  /** ` cap cap ...` */
  function RenderCaps(caps: seq<bytes>): bytes {
    if |caps| == 0 then [] else [SP] + caps[0] + RenderCaps(caps[1..])
  }

  ghost predicate AllAtoms(ws: seq<bytes>) {
    forall w :: w in ws ==> AtomOk(w)
  }

  lemma CapsEnd(a: bytes, j: nat, caps: seq<bytes>)
    requires At(a, j, RenderCaps(caps)) && AtomEnds(a, j + |RenderCaps(caps)|)
    ensures AtomEnds(a, j)
  {
    if |caps| > 0 {
      AtFirst(a, j, RenderCaps(caps));
    }
  }

  lemma CapsParts(a: bytes, i: nat, caps: seq<bytes>)
    requires |caps| > 0 && At(a, i, RenderCaps(caps))
    ensures i < |a| && a[i] == SP && At(a, i + 1, caps[0])
    ensures At(a, i + 1 + |caps[0]|, RenderCaps(caps[1..]))
    ensures |RenderCaps(caps)| == 1 + |caps[0]| + |RenderCaps(caps[1..])|
  {
    hide At;
    var rest := RenderCaps(caps[1..]);
    assert RenderCaps(caps) == [SP] + (caps[0] + rest);
    AtByte(a, i, SP, caps[0] + rest);
    AtConcat(a, i + 1, caps[0], rest);
  }

  /** Capability names are read one by one, up to the first byte that cannot go on with the last. */
  lemma {:induction false} CapsThrough(a: bytes, i: nat, t: nat, caps: seq<bytes>, acc: seq<bytes>)
    requires At(a, i, RenderCaps(caps)) && AllAtoms(caps) && AtomEnds(a, i + |RenderCaps(caps)|)
    ensures i <= |a|
    ensures CapsRest(a, i, t, acc) ==
            if |caps| <= t then CapsRest(a, i + |RenderCaps(caps)|, t - |caps|, acc + caps)
            else Err(TooManyItems(MAX_ITEMS_PER_RESPONSE))
    decreases |caps|
  {
    hide At, AtomOk, Atom, RenderCaps, IsAtomChar, AtomEnds;
    AtSlice(a, i, RenderCaps(caps));
    if |caps| == 0 {
      NoCaps();
      assert caps == [] && acc + caps == acc;
    } else {
      CapsParts(a, i, caps);
      var j := i + 1 + |caps[0]|;
      CapsEnd(a, j, caps[1..]);
      AtomAt(a, i + 1, t, caps[0]);
      if t > 0 {
        CapsThrough(a, j, t - 1, caps[1..], acc + [caps[0]]);
        assert acc + [caps[0]] + caps[1..] == acc + caps;
      }
    }
  }

  lemma NoCaps()
    ensures RenderCaps([]) == []
  {
  }

  lemma CapsAt(a: bytes, i: nat, t: nat, caps: seq<bytes>, acc: seq<bytes>)
    requires At(a, i, RenderCaps(caps)) && AllAtoms(caps)
    requires var e := i + |RenderCaps(caps)|; AtomEnds(a, e) && a[e] != SP
    ensures i <= |a|
    ensures CapsRest(a, i, t, acc) == Within(|caps|, t, acc + caps, i + |RenderCaps(caps)|)
  {
    hide At, AllAtoms, Atom;
    CapsThrough(a, i, t, caps, acc);
  }

  /** A space with no name after it. */
  lemma CapsThenSpace(a: bytes, i: nat, t: nat, caps: seq<bytes>)
    requires At(a, i, RenderCaps(caps)) && AllAtoms(caps) && |caps| <= t
    requires var e := i + |RenderCaps(caps)|; e < |a| && a[e] == SP && (e + 1 < |a| ==> !IsAtomChar(a[e + 1]))
    ensures i <= |a|
    ensures var r := CapsRest(a, i, t, []);
            r.Err? && (r == Err(Incomplete) <==> i + |RenderCaps(caps)| + 1 == |a|)
  {
    hide At, AllAtoms;
    CapsThrough(a, i, t, caps, []);
  }

  /** ` n n ...` */
  function RenderIds(ids: seq<Numeral>): bytes {
    if |ids| == 0 then [] else [SP] + ids[0] + RenderIds(ids[1..])
  }

  function IdValues(ids: seq<Numeral>): (values: seq<nat>)
    ensures |values| == |ids|
  {
    seq(|ids|, i requires 0 <= i < |ids| => Decimal(ids[i]))
  }

  predicate AllFit(ids: seq<Numeral>) {
    forall k :: 0 <= k < |ids| ==> Fits(ids[k])
  }

  lemma IdEnds(a: bytes, j: nat, ids: seq<Numeral>)
    requires At(a, j, RenderIds(ids))
    requires var e := j + |RenderIds(ids)|; e < |a| && !IsDigit(a[e])
    ensures j < |a| && !IsDigit(a[j])
  {
    if |ids| > 0 {
      AtFirst(a, j, RenderIds(ids));
    }
  }

  /** Numbers are read one by one, up to the first byte that cannot go on with the last. */
  lemma {:induction false} IdsThrough(a: bytes, i: nat, t: nat, ids: seq<Numeral>, acc: seq<nat>)
    requires At(a, i, RenderIds(ids)) && AllFit(ids)
    requires var e := i + |RenderIds(ids)|; e < |a| && (|ids| > 0 ==> !IsDigit(a[e]))
    ensures i <= |a|
    ensures SearchRest(a, i, t, acc) == SearchRest(a, i + |RenderIds(ids)|, t, acc + IdValues(ids))
    decreases |ids|
  {
    hide At, Number, Decimal;
    AtSlice(a, i, RenderIds(ids));
    if |ids| == 0 {
      assert acc + IdValues(ids) == acc;
    } else {
      var rest := RenderIds(ids[1..]);
      assert RenderIds(ids) == [SP] + (ids[0] + rest);
      AtByte(a, i, SP, ids[0] + rest);
      AtConcat(a, i + 1, ids[0], rest);
      var j := i + 1 + |ids[0]|;
      IdEnds(a, j, ids[1..]);
      NumeralAt(a, i + 1, t, ids[0]);
      IdsThrough(a, j, t, ids[1..], acc + [Decimal(ids[0])]);
      assert acc + [Decimal(ids[0])] + IdValues(ids[1..]) == acc + IdValues(ids);
    }
  }

  lemma IdsAt(a: bytes, i: nat, t: nat, ids: seq<Numeral>, acc: seq<nat>)
    requires At(a, i, RenderIds(ids)) && AllFit(ids)
    requires var e := i + |RenderIds(ids)|; e < |a| && a[e] != SP && (|ids| > 0 ==> !IsDigit(a[e]))
    ensures i <= |a|
    ensures SearchRest(a, i, t, acc) == Ok(acc + IdValues(ids), i + |RenderIds(ids)|, t)
  {
    hide At, AllFit, Number;
    IdsThrough(a, i, t, ids, acc);
  }

  /** A space with no number after it. */
  lemma IdsThenSpace(a: bytes, i: nat, t: nat, ids: seq<Numeral>)
    requires At(a, i, RenderIds(ids)) && AllFit(ids)
    requires var e := i + |RenderIds(ids)|; e < |a| && a[e] == SP && (e + 1 < |a| ==> !IsDigit(a[e + 1]))
    ensures i <= |a|
    ensures var r := SearchRest(a, i, t, []);
            r.Err? && (r == Err(Incomplete) <==> i + |RenderIds(ids)| + 1 == |a|)
  {
    hide At, AllFit;
    IdsThrough(a, i, t, ids, []);
  }

  ghost predicate AllFlagText(flags: seq<bytes>) {
    forall f :: f in flags ==> Wire.FlagText(f)
  }

  function SpList(l: seq<bytes>): bytes {
    [SP] + Wire.Parenthesised(l)
  }

  lemma FlagsAfterSp(a: bytes, i: nat, t: nat, flags: seq<bytes>)
    requires AllFlagText(flags) && At(a, i, SpList(flags))
    ensures SpAtomList(a, i, t) == Within(|flags|, t, flags, i + |SpList(flags)|)
  {
    hide At, AtomList, Wire.Parenthesised, Wire.FlagText;
    AtByte(a, i, SP, Wire.Parenthesised(flags));
    Wire.FlagListAt(a, i + 1, t, flags);
  }

  // ---------------------------------------------------------------------------
  // STATUS items
  // ---------------------------------------------------------------------------

  datatype ItemKind = MessagesItem | RecentItem | UidNextItem | UidValidityItem | UnseenItem | OtherItem

  /** An item with its key as the server spells it. */
  datatype SentItem = SentItem(key: bytes, kind: ItemKind, n: Numeral)

  function KeyOf(kind: ItemKind): bytes
    requires kind != OtherItem
  {
    match kind
    case MessagesItem => Words.MESSAGES
    case RecentItem => Words.RECENT
    case UidNextItem => Words.UIDNEXT
    case UidValidityItem => Words.UIDVALIDITY
    case UnseenItem => Words.UNSEEN
  }

  function ItemMeaning(s: SentItem): StatusItem {
    match s.kind
    case MessagesItem => ItemMessages(Decimal(s.n))
    case RecentItem => ItemRecent(Decimal(s.n))
    case UidNextItem => ItemUidNext(Decimal(s.n))
    case UidValidityItem => ItemUidValidity(Decimal(s.n))
    case UnseenItem => ItemUnseen(Decimal(s.n))
    case OtherItem => ItemOther(Decimal(s.n))
  }

  predicate KnownKey(key: bytes) {
    EqCi(key, Words.MESSAGES) || EqCi(key, Words.RECENT) || EqCi(key, Words.UIDNEXT)
    || EqCi(key, Words.UIDVALIDITY) || EqCi(key, Words.UNSEEN)
  }

  predicate ItemOk(s: SentItem) {
    Fits(s.n) && if s.kind == OtherItem then AtomOk(s.key) && !KnownKey(s.key) else EqCi(s.key, KeyOf(s.kind))
  }

  function RenderItem(s: SentItem): bytes {
    s.key + [SP] + s.n
  }

  function RenderItems(items: seq<SentItem>): (forms: seq<bytes>)
    ensures |forms| == |items|
  {
    seq(|items|, i requires 0 <= i < |items| => RenderItem(items[i]))
  }

  function ItemMeanings(items: seq<SentItem>): (r: seq<StatusItem>)
    ensures |r| == |items|
  {
    seq(|items|, i requires 0 <= i < |items| => ItemMeaning(items[i]))
  }

  ghost predicate AllItemsOk(items: seq<SentItem>) {
    forall s :: s in items ==> ItemOk(s)
  }

  lemma KeywordItem(kind: ItemKind, n: nat)
    requires kind != OtherItem
    ensures AllLetters(KeyOf(kind)) && |KeyOf(kind)| > 0
    ensures StatusItemOf(KeyOf(kind), n) ==
            match kind
            case MessagesItem => ItemMessages(n)
            case RecentItem => ItemRecent(n)
            case UidNextItem => ItemUidNext(n)
            case UidValidityItem => ItemUidValidity(n)
            case UnseenItem => ItemUnseen(n)
  {
    assert Lower(UIDNEXT[0]) != Lower(MESSAGES[0]);
    assert Lower(UNSEEN[0]) != Lower(RECENT[0]);
  }

  lemma ItemIgnoresCase(x: bytes, y: bytes, n: nat)
    requires EqCi(x, y)
    ensures StatusItemOf(x, n) == StatusItemOf(y, n)
  {
    hide EqCi;
    SameWord(x, y, MESSAGES);
    SameWord(x, y, RECENT);
    SameWord(x, y, UIDNEXT);
    SameWord(x, y, UIDVALIDITY);
    SameWord(x, y, UNSEEN);
  }

  lemma ItemKey(s: SentItem)
    requires ItemOk(s)
    ensures AtomOk(s.key) && Fits(s.n) && StatusItemOf(s.key, Decimal(s.n)) == ItemMeaning(s)
  {
    hide EqCi, KeyOf, AtomOk, Decimal;
    if s.kind != OtherItem {
      KeywordItem(s.kind, Decimal(s.n));
      ItemIgnoresCase(s.key, KeyOf(s.kind), Decimal(s.n));
      SpelledAtom(s.key, KeyOf(s.kind));
    }
  }

  lemma ItemAt(a: bytes, i: nat, t: nat, s: SentItem)
    requires At(a, i, RenderItem(s)) && ItemOk(s) && Delimited(a, i + |RenderItem(s)|)
    ensures OneStatusItem(a, i, t) == Ok(ItemMeaning(s), i + |RenderItem(s)|, t)
  {
    hide At, AtomOk, ItemOk, ItemMeaning, StatusItemOf, Number, Atom, Decimal, Fits;
    ItemKey(s);
    assert RenderItem(s) == s.key + ([SP] + s.n);
    AtConcat(a, i, s.key, [SP] + s.n);
    AtByte(a, i + |s.key|, SP, s.n);
    AtomAt(a, i, t, s.key);
    NumeralAt(a, i + |s.key| + 1, t, s.n);
  }

  lemma ItemsCons(items: seq<SentItem>)
    requires |items| > 0
    ensures ItemMeanings(items) == [ItemMeaning(items[0])] + ItemMeanings(items[1..])
    ensures RenderItems(items) == [RenderItem(items[0])] + RenderItems(items[1..])
  {
    hide ItemMeaning, RenderItem;
    var m := [ItemMeaning(items[0])] + ItemMeanings(items[1..]);
    assert forall k :: 0 <= k < |items| ==> ItemMeanings(items)[k] == m[k];
    var r := [RenderItem(items[0])] + RenderItems(items[1..]);
    assert forall k :: 0 <= k < |items| ==> RenderItems(items)[k] == r[k];
  }

  lemma {:induction false} ItemsRestAt(a: bytes, i: nat, t: nat, items: seq<SentItem>, acc: seq<StatusItem>)
    requires |items| > 0 && AllItemsOk(items)
    requires At(a, i, Wire.Join(RenderItems(items)) + [RPAREN])
    ensures StatusItemsRest(a, i, t, acc) ==
            Within(|items|, t, acc + ItemMeanings(items), i + |Wire.Join(RenderItems(items))| + 1)
    decreases |items|
  {
    hide At, OneStatusItem, RenderItem, ItemMeaning, ItemOk, RenderItems, ItemMeanings;
    var form := RenderItem(items[0]);
    ItemsCons(items);
    if |items| == 1 {
      assert RenderItems(items) == [form];
      AtConcat(a, i, form, [RPAREN]);
      AtFirst(a, i + |form|, [RPAREN]);
      ItemAt(a, i, t, items[0]);
      assert ItemMeanings(items) == [ItemMeaning(items[0])];
    } else {
      var rest := Wire.Join(RenderItems(items[1..])) + [RPAREN];
      assert RenderItems(items)[1..] == RenderItems(items[1..]);
      assert Wire.Join(RenderItems(items)) + [RPAREN] == form + ([SP] + rest);
      AtConcat(a, i, form, [SP] + rest);
      AtByte(a, i + |form|, SP, rest);
      ItemAt(a, i, t, items[0]);
      if t > 0 {
        ItemsRestAt(a, i + |form| + 1, t - 1, items[1..], acc + [ItemMeaning(items[0])]);
        assert acc + [ItemMeaning(items[0])] + ItemMeanings(items[1..]) == acc + ItemMeanings(items);
      }
    }
  }

  lemma ItemsStart(items: seq<SentItem>)
    requires |items| > 0 && AllItemsOk(items)
    ensures var j := Wire.Join(RenderItems(items)); |j| > 0 && j[0] != RPAREN
  {
    hide AtomOk, ItemOk;
    assert RenderItems(items)[0] == RenderItem(items[0]);
    assert items[0] in items;
    ItemKey(items[0]);
    AtomStarts(items[0].key);
  }

  lemma ItemsAreAt(a: bytes, i: nat, t: nat, items: seq<SentItem>)
    requires AllItemsOk(items) && At(a, i, Wire.Parenthesised(RenderItems(items)))
    ensures StatusItems(a, i, t) ==
            Within(|items|, t, ItemMeanings(items), i + |Wire.Parenthesised(RenderItems(items))|)
  {
    hide At, StatusItemsRest, RenderItems, ItemMeanings, ItemOk;
    var body := Wire.Join(RenderItems(items)) + [RPAREN];
    assert Wire.Parenthesised(RenderItems(items)) == [LPAREN] + body;
    AtByte(a, i, LPAREN, body);
    AtFirst(a, i + 1, body);
    if |items| == 0 {
      assert ItemMeanings(items) == [];
    } else {
      ItemsStart(items);
      ItemsRestAt(a, i + 1, t, items, []);
      assert [] + ItemMeanings(items) == ItemMeanings(items);
    }
  }

  // ---------------------------------------------------------------------------
  // Data responses
  // ---------------------------------------------------------------------------

  datatype SentData =
    | SentCapability(caps: seq<bytes>)
    | SentList(flags: seq<bytes>, delimiter: NStringForm, mailbox: AStringForm)
    | SentLsub(flags: seq<bytes>, delimiter: NStringForm, mailbox: AStringForm)
    | SentStatus(mailbox: AStringForm, items: seq<SentItem>)
    | SentSearch(ids: seq<Numeral>)
    | SentFlagsData(flags: seq<bytes>)
    | SentExists(n: Numeral)
    | SentRecent(n: Numeral)
    | SentExpunge(n: Numeral)
    | SentFetch(n: Numeral, atts: seq<SentAtt>)

  /** A data response with its name as the server spells it. */
  datatype SentLine = SentLine(name: bytes, data: SentData)

  predicate IsNumbered(d: SentData) {
    d.SentExists? || d.SentRecent? || d.SentExpunge? || d.SentFetch?
  }

  function DataName(d: SentData): bytes {
    match d
    case SentCapability(_) => Words.CAPABILITY
    case SentList(_, _, _) => Words.LIST
    case SentLsub(_, _, _) => Words.LSUB
    case SentStatus(_, _) => Words.STATUS
    case SentSearch(_) => Words.SEARCH
    case SentFlagsData(_) => Words.FLAGS
    case SentExists(_) => Words.EXISTS
    case SentRecent(_) => Words.RECENT
    case SentExpunge(_) => Words.EXPUNGE
    case SentFetch(_, _) => Words.FETCH
  }

  function RenderListBody(flags: seq<bytes>, delimiter: NStringForm, mailbox: AStringForm): bytes {
    SpList(flags) + [SP] + RenderNString(delimiter) + [SP] + RenderAString(mailbox)
  }

  function RenderStatusBody(mailbox: AStringForm, items: seq<SentItem>): bytes {
    [SP] + RenderAString(mailbox) + SpList(RenderItems(items))
  }

  /** What follows the name. */
  function RenderBody(d: SentData): bytes {
    match d
    case SentCapability(caps) => RenderCaps(caps)
    case SentList(flags, delimiter, mailbox) => RenderListBody(flags, delimiter, mailbox)
    case SentLsub(flags, delimiter, mailbox) => RenderListBody(flags, delimiter, mailbox)
    case SentStatus(mailbox, items) => RenderStatusBody(mailbox, items)
    case SentSearch(ids) => RenderIds(ids)
    case SentFlagsData(flags) => SpList(flags)
    case SentFetch(_, atts) => SpList(RenderAtts(atts))
    case _ => []
  }

  /** The line after `* `, without its CRLF. */
  function RenderLine(l: SentLine): bytes {
    if IsNumbered(l.data) then l.data.n + [SP] + (l.name + RenderBody(l.data)) else l.name + RenderBody(l.data)
  }

  function DataMeaning(d: SentData): DataResponse {
    match d
    case SentCapability(caps) => Capability(caps)
    case SentList(flags, delimiter, mailbox) => ListData(flags, NStringValue(delimiter), AStringValue(mailbox))
    case SentLsub(flags, delimiter, mailbox) => Lsub(flags, NStringValue(delimiter), AStringValue(mailbox))
    case SentStatus(mailbox, items) => StatusData(AStringValue(mailbox), ItemMeanings(items))
    case SentSearch(ids) => Search(IdValues(ids))
    case SentFlagsData(flags) => FlagsData(flags)
    case SentExists(n) => Exists(Decimal(n))
    case SentRecent(n) => Recent(Decimal(n))
    case SentExpunge(n) => Expunge(Decimal(n))
    case SentFetch(n, atts) => Fetch(Decimal(n), Meanings(atts))
  }

  ghost predicate DataOk(d: SentData) {
    match d
    case SentCapability(caps) => AllAtoms(caps)
    case SentList(flags, delimiter, mailbox) => AllFlagText(flags) && TextFormOk(delimiter) && AStringOk(mailbox)
    case SentLsub(flags, delimiter, mailbox) => AllFlagText(flags) && TextFormOk(delimiter) && AStringOk(mailbox)
    case SentStatus(mailbox, items) => AStringOk(mailbox) && AllItemsOk(items)
    case SentSearch(ids) => AllFit(ids)
    case SentFlagsData(flags) => AllFlagText(flags)
    case SentFetch(n, atts) => Fits(n) && AllOk(atts)
    case _ => Fits(d.n)
  }

  ghost predicate LineOk(l: SentLine) {
    EqCi(l.name, DataName(l.data)) && DataOk(l.data)
  }

  /** The byte `b` cannot make the last token of the line longer, or add another one. It matters only
      where that token has no end of its own. */
  predicate Stops(d: SentData, b: byte) {
    match d
    case SentCapability(_) => !IsAtomChar(b) && b != SP
    case SentSearch(ids) => b != SP && if |ids| == 0 then !IsAtomChar(b) else !IsDigit(b)
    case SentList(_, _, mailbox) => mailbox.AtomText? ==> !IsAtomChar(b)
    case SentLsub(_, _, mailbox) => mailbox.AtomText? ==> !IsAtomChar(b)
    case SentExists(_) => !IsAtomChar(b)
    case SentRecent(_) => !IsAtomChar(b)
    case SentExpunge(_) => !IsAtomChar(b)
    case _ => true
  }

  predicate StopsAt(d: SentData, a: bytes, e: nat) {
    e < |a| && Stops(d, a[e])
  }

  lemma ListParts(a: bytes, i: nat, f: bytes, d: bytes, n: bytes)
    requires At(a, i, f + [SP] + d + [SP] + n)
    ensures At(a, i, f)
    ensures var j := i + |f|;
            && j < |a| && a[j] == SP && At(a, j + 1, d)
            && var k := j + 1 + |d|;
               k < |a| && a[k] == SP && At(a, k + 1, n)
  {
    hide At;
    assert f + [SP] + d + [SP] + n == f + ([SP] + (d + ([SP] + n)));
    AtConcat(a, i, f, [SP] + (d + ([SP] + n)));
    AtByte(a, i + |f|, SP, d + ([SP] + n));
    AtConcat(a, i + |f| + 1, d, [SP] + n);
    AtByte(a, i + |f| + 1 + |d|, SP, n);
  }

  lemma ListBodyAt(a: bytes, i: nat, t: nat, flags: seq<bytes>, delimiter: NStringForm, mailbox: AStringForm)
    requires AllFlagText(flags) && TextFormOk(delimiter) && AStringOk(mailbox)
    requires At(a, i, RenderListBody(flags, delimiter, mailbox))
    requires mailbox.AtomText? ==> AtomEnds(a, i + |RenderListBody(flags, delimiter, mailbox)|)
    ensures ListBody(a, i, t) ==
            Within(|flags|, t, (flags, NStringValue(delimiter), AStringValue(mailbox)),
                   i + |RenderListBody(flags, delimiter, mailbox)|)
  {
    hide At, SpAtomList, NString, AString, SpList, AllFlagText, TextFormOk, AStringOk, RenderNString;
    hide NStringValue, AStringValue, AtomEnds;
    var f, d := SpList(flags), RenderNString(delimiter);
    ListParts(a, i, f, d, RenderAString(mailbox));
    FlagsAfterSp(a, i, t, flags);
    var j := i + |f|;
    if |flags| <= t {
      NStringTextAt(a, j + 1, t - |flags|, delimiter);
      AStringAt(a, j + 1 + |d| + 1, t - |flags|, mailbox);
    }
  }

  lemma StatusBodyParts(a: bytes, i: nat, m: bytes, l: bytes)
    requires At(a, i, [SP] + m + ([SP] + l))
    ensures i < |a| && a[i] == SP && At(a, i + 1, m)
    ensures var j := i + 1 + |m|; j < |a| && a[j] == SP && At(a, j + 1, l)
  {
    hide At;
    assert [SP] + m + ([SP] + l) == [SP] + (m + ([SP] + l));
    AtByte(a, i, SP, m + ([SP] + l));
    AtConcat(a, i + 1, m, [SP] + l);
    AtByte(a, i + 1 + |m|, SP, l);
  }

  lemma StatusBodyAt(a: bytes, i: nat, t: nat, mailbox: AStringForm, items: seq<SentItem>)
    requires AStringOk(mailbox) && AllItemsOk(items)
    requires At(a, i, RenderStatusBody(mailbox, items))
    ensures NamedBody(a, i, t, KStatus) ==
            Within(|items|, t, StatusData(AStringValue(mailbox), ItemMeanings(items)),
                   i + |RenderStatusBody(mailbox, items)|)
  {
    hide At, AString, StatusItems, AStringOk, AllItemsOk, AStringValue, Wire.Parenthesised;
    hide RenderItems, ItemMeanings;
    var m := RenderAString(mailbox);
    StatusBodyParts(a, i, m, Wire.Parenthesised(RenderItems(items)));
    DelimiterEndsAtom(a, i + 1 + |m|);
    AStringAt(a, i + 1, t, mailbox);
    ItemsAreAt(a, i + 1 + |m| + 1, t, items);
  }

  function NamedKindIs(d: SentData): NamedKind {
    match d
    case SentCapability(_) => KCapability
    case SentList(_, _, _) => KList
    case SentLsub(_, _, _) => KLsub
    case SentStatus(_, _) => KStatus
    case SentSearch(_) => KSearch
    case SentFlagsData(_) => KFlagsData
    case _ => KOtherNamed
  }

  function NumericKindIs(d: SentData): NumericKind {
    match d
    case SentExists(_) => KExists
    case SentRecent(_) => KRecent
    case SentExpunge(_) => KExpunge
    case SentFetch(_, _) => KFetch
    case _ => KOtherNumeric
  }

  /** The body of `d` at `i` was read as meant by a routine that gives `r`. */
  ghost predicate BodyRead(r: Res<DataResponse>, d: SentData, i: nat, t: nat) {
    r == Within(DataItems(DataMeaning(d)), t, DataMeaning(d), i + |RenderBody(d)|)
  }

  lemma CapabilityBodyAt(a: bytes, i: nat, t: nat, d: SentData)
    requires d.SentCapability? && DataOk(d) && At(a, i, RenderBody(d)) && StopsAt(d, a, i + |RenderBody(d)|)
    ensures i <= |a| && BodyRead(NamedBody(a, i, t, KCapability), d, i, t)
  {
    hide At, AllAtoms, CapsRest, RenderCaps, IsAtomChar;
    CapsAt(a, i, t, d.caps, []);
    assert [] + d.caps == d.caps;
  }

  lemma SearchBodyAt(a: bytes, i: nat, t: nat, d: SentData)
    requires d.SentSearch? && DataOk(d) && At(a, i, RenderBody(d)) && StopsAt(d, a, i + |RenderBody(d)|)
    ensures i <= |a| && BodyRead(NamedBody(a, i, t, KSearch), d, i, t)
  {
    hide At, AllFit, SearchRest, RenderIds, IdValues, IsAtomChar, IsDigit;
    IdsAt(a, i, t, d.ids, []);
    assert [] + IdValues(d.ids) == IdValues(d.ids);
  }

  lemma ListKindBodyAt(a: bytes, i: nat, t: nat, d: SentData)
    requires (d.SentList? || d.SentLsub?) && DataOk(d)
    requires At(a, i, RenderBody(d)) && StopsAt(d, a, i + |RenderBody(d)|)
    ensures i <= |a| && BodyRead(NamedBody(a, i, t, NamedKindIs(d)), d, i, t)
  {
    hide At, AllFlagText, TextFormOk, AStringOk, ListBody, RenderListBody, NStringValue, AStringValue, IsAtomChar;
    AtSlice(a, i, RenderBody(d));
    ListBodyAt(a, i, t, d.flags, d.delimiter, d.mailbox);
  }

  lemma PlainBodyAt(a: bytes, i: nat, t: nat, d: SentData)
    requires (d.SentStatus? || d.SentFlagsData?) && DataOk(d) && At(a, i, RenderBody(d))
    ensures i <= |a| && BodyRead(NamedBody(a, i, t, NamedKindIs(d)), d, i, t)
  {
    hide At, AllFlagText, AStringOk, AllItemsOk, SpAtomList, AString, StatusItems;
    hide RenderStatusBody, SpList, AStringValue, ItemMeanings;
    AtSlice(a, i, RenderBody(d));
    if d.SentStatus? {
      StatusBodyAt(a, i, t, d.mailbox, d.items);
    } else {
      FlagsAfterSp(a, i, t, d.flags);
    }
  }

  lemma NamedBodyAt(a: bytes, i: nat, t: nat, d: SentData)
    requires !IsNumbered(d) && DataOk(d) && At(a, i, RenderBody(d)) && StopsAt(d, a, i + |RenderBody(d)|)
    ensures i <= |a| && BodyRead(NamedBody(a, i, t, NamedKindIs(d)), d, i, t)
  {
    hide At, DataOk, StopsAt, BodyRead, RenderBody, NamedBody;
    match d
    case SentCapability(_) => CapabilityBodyAt(a, i, t, d);
    case SentList(_, _, _) => ListKindBodyAt(a, i, t, d);
    case SentLsub(_, _, _) => ListKindBodyAt(a, i, t, d);
    case SentStatus(_, _) => PlainBodyAt(a, i, t, d);
    case SentSearch(_) => SearchBodyAt(a, i, t, d);
    case SentFlagsData(_) => PlainBodyAt(a, i, t, d);
  }

  lemma NumberedBodyAt(a: bytes, i: nat, t: nat, d: SentData)
    requires IsNumbered(d) && DataOk(d) && At(a, i, RenderBody(d))
    ensures i <= |a| && BodyRead(NumericBody(a, i, t, Decimal(d.n), NumericKindIs(d)), d, i, t)
  {
    hide At, Decimal, AllOk, FetchMsgAtt, Wire.Parenthesised, RenderAtts, Meanings, AttsItems;
    AtSlice(a, i, RenderBody(d));
    if d.SentFetch? {
      AtByte(a, i, SP, Wire.Parenthesised(RenderAtts(d.atts)));
      MsgAttAt(a, i + 1, t, d.atts);
    }
  }

  // ---------------------------------------------------------------------------
  // Names
  // ---------------------------------------------------------------------------

  lemma NamedKeyword(d: SentData)
    requires !IsNumbered(d)
    ensures NamedKindOf(DataName(d)) == NamedKindIs(d)
  {
    var w := DataName(d);
    assert d.SentLsub? ==> Lower(w[1]) != Lower(LIST[1]);
    assert d.SentSearch? ==> Lower(w[1]) != Lower(STATUS[1]);
  }

  lemma NumericKeyword(d: SentData)
    requires IsNumbered(d)
    ensures NumericKindOf(DataName(d)) == NumericKindIs(d)
  {
    assert d.SentRecent? ==> Lower(DataName(d)[0]) != Lower(EXISTS[0]);
  }

  lemma KindsIgnoreCase(x: bytes, y: bytes)
    requires EqCi(x, y)
    ensures NamedKindOf(x) == NamedKindOf(y) && NumericKindOf(x) == NumericKindOf(y)
  {
    hide EqCi;
    SameWord(x, y, CAPABILITY);
    SameWord(x, y, LIST);
    SameWord(x, y, LSUB);
    SameWord(x, y, STATUS);
    SameWord(x, y, SEARCH);
    SameWord(x, y, FLAGS);
    SameWord(x, y, EXISTS);
    SameWord(x, y, RECENT);
    SameWord(x, y, EXPUNGE);
    SameWord(x, y, FETCH);
  }

  lemma KeywordLetters(d: SentData)
    ensures |DataName(d)| > 0 && AllLetters(DataName(d))
    ensures !IsNumbered(d) ==> StartsNoStatus(DataName(d)[0])
  {
  }

  lemma LineName(l: SentLine)
    requires LineOk(l)
    ensures AtomOk(l.name)
    ensures !IsNumbered(l.data) ==> NamedKindOf(l.name) == NamedKindIs(l.data) && StartsNoStatus(l.name[0])
    ensures IsNumbered(l.data) ==> NumericKindOf(l.name) == NumericKindIs(l.data)
  {
    hide DataOk, DataName, AtomOk, AllLetters, NamedKindOf, NumericKindOf;
    var kw := DataName(l.data);
    KeywordLetters(l.data);
    if IsNumbered(l.data) {
      NumericKeyword(l.data);
    } else {
      NamedKeyword(l.data);
    }
    KindsIgnoreCase(l.name, kw);
    SpelledAtom(l.name, kw);
    assert Lower(l.name[0]) == Lower(kw[0]);
  }

  // ---------------------------------------------------------------------------
  // Lines
  // ---------------------------------------------------------------------------

  /** The rest of a line whose data cost `cost`: CRLF at `e`, or an error. */
  ghost predicate LineRead(r: Res<Response>, d: SentData, a: bytes, e: nat, t: nat)
    requires e <= |a|
  {
    var cost := DataItems(DataMeaning(d));
    r == if cost <= t then FinishData(a, e, t - cost, DataMeaning(d)) else Err(TooManyItems(MAX_ITEMS_PER_RESPONSE))
  }

  lemma BodyStarts(a: bytes, i: nat, d: SentData)
    requires At(a, i, RenderBody(d)) && StopsAt(d, a, i + |RenderBody(d)|)
    ensures AtomEnds(a, i)
  {
    if |RenderBody(d)| > 0 {
      AtFirst(a, i, RenderBody(d));
    } else {
      match d
      case SentCapability(_) =>
      case SentSearch(_) =>
      case _ =>
    }
  }

  lemma NamedAt(a: bytes, i: nat, t: nat, l: SentLine)
    requires !IsNumbered(l.data) && LineOk(l) && At(a, i, RenderLine(l)) && StopsAt(l.data, a, i + |RenderLine(l)|)
    ensures LineRead(NamedData(a, i, t), l.data, a, i + |RenderLine(l)|, t)
  {
    hide At, Atom, NamedKindOf, NamedBody, RawLine, FinishData, DataOk, DataMeaning, DataItems, RenderBody;
    hide DataName, AtomOk, StopsAt, EqCi;
    var d, j := l.data, i + |l.name|;
    AtConcat(a, i, l.name, RenderBody(d));
    BodyStarts(a, j, d);
    LineName(l);
    AtomAt(a, i, t, l.name);
    NamedBodyAt(a, j, t, d);
  }

  lemma NumberedParts(a: bytes, i: nat, n: bytes, rest: bytes)
    requires At(a, i, n + [SP] + rest)
    ensures At(a, i, n)
    ensures var j := i + |n|; j < |a| && a[j] == SP && At(a, j + 1, rest)
  {
    hide At;
    assert n + [SP] + rest == n + ([SP] + rest);
    AtConcat(a, i, n, [SP] + rest);
    AtByte(a, i + |n|, SP, rest);
  }

  /** The number and the name of a numbered line. */
  lemma NumberedHead(a: bytes, i: nat, t: nat, n: Numeral, name: bytes, body: bytes)
    requires At(a, i, n + [SP] + (name + body)) && Fits(n) && AtomOk(name)
    requires At(a, i + |n| + 1 + |name|, body) ==> AtomEnds(a, i + |n| + 1 + |name|)
    ensures Number(a, i, t) == Ok(Decimal(n), i + |n|, t)
    ensures i + |n| < |a| && a[i + |n|] == SP
    ensures var j := i + |n| + 1; Atom(a, j, t) == Ok(name, j + |name|, t) && At(a, j + |name|, body)
  {
    hide At, Atom, Number, AtomOk, AtomEnds, Decimal, Fits;
    NumberedParts(a, i, n, name + body);
    AtConcat(a, i + |n| + 1, name, body);
    NumeralAt(a, i, t, n);
    AtomAt(a, i + |n| + 1, t, name);
  }

  lemma NumberedAt(a: bytes, i: nat, t: nat, l: SentLine)
    requires IsNumbered(l.data) && LineOk(l) && At(a, i, RenderLine(l)) && StopsAt(l.data, a, i + |RenderLine(l)|)
    ensures LineRead(NumericData(a, i, t), l.data, a, i + |RenderLine(l)|, t)
  {
    hide At, Atom, Number, NumericKindOf, NumericBody, RawLine, LineStart, FinishData, DataMeaning, DataItems;
    hide RenderBody, DataName, AtomOk, AtomEnds, StopsAt, EqCi, Decimal, Fits, DataOk;
    var d := l.data;
    var j := i + |d.n| + 1 + |l.name|;
    LineName(l);
    NumberOk(d);
    if At(a, j, RenderBody(d)) {
      BodyStarts(a, j, d);
    }
    NumberedHead(a, i, t, d.n, l.name, RenderBody(d));
    NumberedBodyAt(a, j, t, d);
  }

  lemma NumberOk(d: SentData)
    requires IsNumbered(d) && DataOk(d)
    ensures Fits(d.n)
  {
  }

  lemma LineStarts(l: SentLine)
    requires LineOk(l)
    ensures |RenderLine(l)| > 0 && StartsNoStatus(RenderLine(l)[0])
    ensures IsDigit(RenderLine(l)[0]) <==> IsNumbered(l.data)
  {
    hide RenderBody;
    LineName(l);
    if IsNumbered(l.data) {
      assert IsDigit(l.data.n[0]);
    } else {
      AtomStarts(l.name);
      KeywordLetters(l.data);
      assert Lower(l.name[0]) == Lower(DataName(l.data)[0]);
    }
  }

  /** A data response up to where its line should end. */
  lemma LineAt(l: SentLine, tail: bytes)
    requires LineOk(l) && |tail| > 0 && Stops(l.data, tail[0])
    ensures var form := [STAR, SP] + RenderLine(l);
            LineRead(ParseResponse(form + tail), l.data, form + tail, |form|, MAX_ITEMS_PER_RESPONSE)
  {
    hide At, NumericData, NamedData, StatusRest, StatusKeyword, Tagged, ContinueReq, FinishData;
    hide DataMeaning, DataItems, RenderLine, LineOk, Stops;
    var line := RenderLine(l);
    var form := [STAR, SP] + line;
    var a := form + tail;
    AtFront(form, tail);
    assert form == [STAR] + ([SP] + line);
    AtByte(a, 0, STAR, [SP] + line);
    AtByte(a, 1, SP, line);
    LineStarts(l);
    AtFirst(a, 2, line);
    assert a[|form|] == tail[0];
    NoStatusKeyword(a, 2);
    if IsNumbered(l.data) {
      NumberedAt(a, 2, MAX_ITEMS_PER_RESPONSE, l);
    } else {
      NamedAt(a, 2, MAX_ITEMS_PER_RESPONSE, l);
    }
  }

  function RenderData(l: SentLine): bytes {
    [STAR, SP] + RenderLine(l) + CRLF
  }

  /** Every data response, FETCH included, whatever follows it, is read as meant and to its end; only
      the item budget can refuse it. */
  lemma DataReadsBack(l: SentLine, rest: bytes)
    requires LineOk(l)
    ensures ParseResponse(RenderData(l) + rest) ==
            Within(DataItems(DataMeaning(l.data)), 65536, Data(DataMeaning(l.data)), |RenderData(l)|)
  {
    hide ParseResponse, DataMeaning, DataItems, RenderLine, LineOk;
    var form := [STAR, SP] + RenderLine(l);
    var tail := CRLF + rest;
    assert RenderData(l) + rest == form + tail;
    CrStops(l.data);
    LineAt(l, tail);
    assert (form + tail)[|form|] == CR && (form + tail)[|form| + 1] == LF;
  }

  /** In particular FETCH: any attributes, in any spelling, with data of any bytes. */
  lemma FetchReadsBack(name: bytes, n: Numeral, atts: seq<SentAtt>, rest: bytes)
    requires EqCi(name, Words.FETCH) && Fits(n) && AllOk(atts)
    ensures var form := [STAR, SP] + (n + [SP] + (name + SpList(RenderAtts(atts)))) + CRLF;
            ParseResponse(form + rest) ==
            Within(AttsItems(Meanings(atts)), 65536, Data(Fetch(Decimal(n), Meanings(atts))), |form|)
  {
    hide ParseResponse, RenderAtts, Meanings, AttsItems, AllOk, EqCi, Fits, SpList, Decimal;
    DataReadsBack(SentLine(name, SentFetch(n, atts)), rest);
  }

  lemma CrStops(d: SentData)
    ensures Stops(d, CR)
  {
  }

  /** A line that may go on with a space and one more name or number. */
  predicate TakesMore(d: SentData) {
    d.SentCapability? || d.SentSearch?
  }

  /** `tail` goes on with the line: it makes its last token longer, or starts another one. The result
      is the beginning of a different line. */
  predicate Extends(d: SentData, tail: bytes) {
    |tail| > 0
    && match d
       case SentCapability(_) => IsAtomChar(tail[0]) || (tail[0] == SP && |tail| > 1 && IsAtomChar(tail[1]))
       case SentSearch(ids) =>
         || (if |ids| == 0 then IsAtomChar(tail[0]) else IsDigit(tail[0]))
         || (tail[0] == SP && |tail| > 1 && IsDigit(tail[1]))
       case SentList(_, _, mailbox) => mailbox.AtomText? && IsAtomChar(tail[0])
       case SentLsub(_, _, mailbox) => mailbox.AtomText? && IsAtomChar(tail[0])
       case SentExists(_) => IsAtomChar(tail[0])
       case SentRecent(_) => IsAtomChar(tail[0])
       case SentExpunge(_) => IsAtomChar(tail[0])
       case _ => false
  }

  lemma ExtendsOrStops(d: SentData, tail: bytes)
    requires |tail| > 0 && !Extends(d, tail) && !(TakesMore(d) && tail[0] == SP)
    ensures Stops(d, tail[0])
  {
  }

  /** The body of a line that may go on, when only a space follows. */
  lemma BodyThenSpace(a: bytes, i: nat, t: nat, d: SentData)
    requires TakesMore(d) && DataOk(d) && At(a, i, RenderBody(d)) && DataItems(DataMeaning(d)) <= t
    requires var e := i + |RenderBody(d)|;
             && e < |a| && a[e] == SP
             && (e + 1 < |a| ==> if d.SentSearch? then !IsDigit(a[e + 1]) else !IsAtomChar(a[e + 1]))
    ensures i <= |a|
    ensures var r := NamedBody(a, i, t, NamedKindIs(d));
            r.Err? && (r == Err(Incomplete) <==> i + |RenderBody(d)| + 1 == |a|)
  {
    hide At, AllAtoms, AllFit, CapsRest, SearchRest, RenderCaps, RenderIds, IdValues, IsAtomChar, IsDigit;
    if d.SentCapability? {
      CapsThenSpace(a, i, t, d.caps);
    } else {
      IdsThenSpace(a, i, t, d.ids);
    }
  }

  lemma SpaceStarts(a: bytes, i: nat, d: SentData)
    requires TakesMore(d) && At(a, i, RenderBody(d))
    requires var e := i + |RenderBody(d)|; e < |a| && a[e] == SP
    ensures AtomEnds(a, i)
  {
    if |RenderBody(d)| > 0 {
      AtFirst(a, i, RenderBody(d));
    }
  }

  lemma NamedThenSpace(a: bytes, i: nat, t: nat, l: SentLine)
    requires TakesMore(l.data) && LineOk(l) && At(a, i, RenderLine(l)) && DataItems(DataMeaning(l.data)) <= t
    requires var e := i + |RenderLine(l)|;
             && e < |a| && a[e] == SP
             && (e + 1 < |a| ==> if l.data.SentSearch? then !IsDigit(a[e + 1]) else !IsAtomChar(a[e + 1]))
    ensures var r := NamedData(a, i, t);
            r.Err? && (r == Err(Incomplete) <==> i + |RenderLine(l)| + 1 == |a|)
  {
    hide At, Atom, NamedKindOf, NamedBody, RawLine, FinishData, DataOk, DataMeaning, DataItems, RenderBody;
    hide DataName, AtomOk, AtomEnds, EqCi, IsAtomChar, IsDigit;
    var d, j := l.data, i + |l.name|;
    AtConcat(a, i, l.name, RenderBody(d));
    SpaceStarts(a, j, d);
    LineName(l);
    AtomAt(a, i, t, l.name);
    BodyThenSpace(a, j, t, d);
  }

  lemma LineThenSpace(l: SentLine, more: bytes)
    requires TakesMore(l.data) && LineOk(l) && DataItems(DataMeaning(l.data)) <= MAX_ITEMS_PER_RESPONSE
    requires !Extends(l.data, [SP] + more)
    ensures var r := ParseResponse([STAR, SP] + RenderLine(l) + ([SP] + more));
            r.Err? && (r == Err(Incomplete) <==> more == [])
  {
    hide At, NumericData, NamedData, StatusRest, StatusKeyword, Tagged, ContinueReq;
    hide DataMeaning, DataItems, RenderLine, LineOk, IsAtomChar;
    var line := RenderLine(l);
    var form := [STAR, SP] + line;
    var tail := [SP] + more;
    var a := form + tail;
    AtFront(form, tail);
    assert form == [STAR] + ([SP] + line);
    AtByte(a, 0, STAR, [SP] + line);
    AtByte(a, 1, SP, line);
    LineStarts(l);
    AtFirst(a, 2, line);
    assert a[|form|] == tail[0] && (|more| > 0 ==> a[|form| + 1] == tail[1]);
    NoStatusKeyword(a, 2);
    NamedThenSpace(a, 2, MAX_ITEMS_PER_RESPONSE, l);
  }

  /** Nothing may stand between a recognised response and its CRLF. Whatever follows what was written,
      unless it goes on with the line: the response is accepted exactly when CRLF comes at once; it is
      waited for exactly while CRLF is cut, or after a space where one more name or number could come;
      and it is refused for good otherwise. */
  lemma TrailingBytesRefused(l: SentLine, tail: bytes)
    requires LineOk(l) && DataItems(DataMeaning(l.data)) <= 65536
    requires !Extends(l.data, tail)
    ensures var r := ParseResponse([STAR, SP] + RenderLine(l) + tail);
            && (r.Ok? <==> CRLF <= tail)
            && (r == Err(Incomplete) <==> tail == [] || tail == [CR] || (TakesMore(l.data) && tail == [SP]))
  {
    hide ParseResponse, DataMeaning, DataItems, RenderLine, LineOk, Stops, Extends, TakesMore;
    var form := [STAR, SP] + RenderLine(l);
    var a := form + tail;
    if tail <= CRLF && tail != CRLF {
      DataReadsBack(l, []);
      PrefixSound(RenderData(l) + [], |a|);
      assert (RenderData(l) + [])[..|a|] == a;
    } else if TakesMore(l.data) && tail[0] == SP {
      assert tail == [SP] + tail[1..];
      LineThenSpace(l, tail[1..]);
    } else {
      ExtendsOrStops(l.data, tail);
      LineAt(l, tail);
      assert a[|form|] == tail[0];
      if |tail| > 1 {
        assert a[|form| + 1] == tail[1];
      }
    }
  }

  /** `* SEARCH `, a space and CRLF: a server that ends its list with a space breaks the connection. */
  lemma TrailingSpaceBreaks()
    ensures ParseResponse([42, 32, 83, 69, 65, 82, 67, 72, 32, 13, 10]).Hard()
  {
    hide ParseResponse;
    var l := SentLine(Words.SEARCH, SentSearch([]));
    var tail: bytes := [32, 13, 10];
    TrailingBytesRefused(l, tail);
    assert tail[0] != CRLF[0];
    assert [STAR, SP] + RenderLine(l) + tail == [42, 32, 83, 69, 65, 82, 67, 72, 32, 13, 10];
  }

  /** `* 3 EXISTS x` and CRLF: the line is not skipped, it breaks the connection. */
  lemma TrailingGarbageBreaks()
    ensures ParseResponse([42, 32, 51, 32, 69, 88, 73, 83, 84, 83, 32, 120, 13, 10]).Hard()
  {
    hide ParseResponse;
    var three: Numeral := [51];
    assert three[..0] == [];
    var l := SentLine(Words.EXISTS, SentExists(three));
    var tail: bytes := [32, 120, 13, 10];
    TrailingBytesRefused(l, tail);
    assert tail[0] != CRLF[0];
    assert [STAR, SP] + RenderLine(l) + tail == [42, 32, 51, 32, 69, 88, 73, 83, 84, 83, 32, 120, 13, 10];
  }

  /** A FETCH response with an attribute the parser does not know breaks the connection, whatever
      attributes stand before it and whatever its value and the rest of the stream are. */
  lemma UnknownAttributeBreaks(name: bytes, n: Numeral, before: seq<SentAtt>, unknown: bytes, tail: bytes)
    requires EqCi(name, Words.FETCH) && Fits(n) && AllOk(before)
    requires AttNameOk(unknown) && !KnownAttribute(unknown)
    requires |tail| > 0 && !InClass(AttNameChar, tail[0])
    ensures var line := n + [SP] + (name + ([SP] + ([LPAREN] + (Ahead(before) + unknown))));
            ParseResponse([STAR, SP] + line + tail).Hard()
  {
    hide At, NumericData, NamedData, StatusRest, StatusKeyword, Tagged, ContinueReq;
    hide Fits, EqCi, AllOk, AttNameOk, KnownAttribute, Ahead;
    var list := [LPAREN] + (Ahead(before) + unknown);
    var line := n + [SP] + (name + ([SP] + list));
    var form := [STAR, SP] + line;
    var a := form + tail;
    AtFront(form, tail);
    assert form == [STAR] + ([SP] + line);
    AtByte(a, 0, STAR, [SP] + line);
    AtByte(a, 1, SP, line);
    AtFirst(a, 2, line);
    assert IsDigit(n[0]) && line[0] == n[0];
    assert a[|form|] == tail[0];
    NoStatusKeyword(a, 2);
    UnknownNumbered(a, 2, MAX_ITEMS_PER_RESPONSE, name, n, before, unknown);
  }

  lemma UnknownNumbered(a: bytes, i: nat, t: nat, name: bytes, n: Numeral, before: seq<SentAtt>, unknown: bytes)
    requires EqCi(name, Words.FETCH) && Fits(n) && AllOk(before)
    requires AttNameOk(unknown) && !KnownAttribute(unknown)
    requires At(a, i, n + [SP] + (name + ([SP] + ([LPAREN] + (Ahead(before) + unknown)))))
    requires var e := i + |n| + 1 + |name| + 1 + 1 + |Ahead(before)| + |unknown|;
             e < |a| && !InClass(AttNameChar, a[e])
    ensures NumericData(a, i, t).Hard()
  {
    hide At, Atom, Number, NumericKindOf, FetchMsgAtt, RawLine, LineStart, FinishData;
    hide AtomOk, EqCi, Decimal, Fits, AllOk, AttNameOk, KnownAttribute, Ahead, InClass;
    var list := [LPAREN] + (Ahead(before) + unknown);
    var j := i + |n| + 1;
    LineName(SentLine(name, SentFetch(n, before)));
    if At(a, j + |name|, [SP] + list) {
      AtByte(a, j + |name|, SP, list);
      DelimiterEndsAtom(a, j + |name|);
    }
    NumberedHead(a, i, t, n, name, [SP] + list);
    AtByte(a, j + |name|, SP, list);
    UnknownInList(a, j + |name| + 1, t, before, unknown);
  }

  const MODSEQ: bytes := [77, 79, 68, 83, 69, 81]

  lemma ModSeqIsUnknown()
    ensures AttNameOk(MODSEQ) && !KnownAttribute(MODSEQ)
  {
    hide Utf8;
    AsciiIsUtf8(MODSEQ);
    assert |MODSEQ| == 6 && |RFC822| == 6 && Lower(MODSEQ[0]) != Lower(RFC822[0]);
  }

  /** The number 1, and the rest of `* 1 FETCH (MODSEQ (5))` after the name. */
  const ONE: bytes := [49]
  const MODSEQ_REST: bytes := [32, 40, 53, 41, 41, 13, 10]

  lemma OneIsNumeral()
    ensures |ONE| > 0 && AllDigits(ONE) && Fits(ONE)
    ensures !InClass(AttNameChar, MODSEQ_REST[0])
    ensures EqCi(Words.FETCH, Words.FETCH) && AllOk([]) && Ahead([]) == []
  {
    assert ONE[..0] == [];
  }

  lemma RegroupFetch(n: bytes, name: bytes, att: bytes, tail: bytes)
    ensures [STAR, SP] + (n + [SP] + (name + ([SP] + ([LPAREN] + ([] + att))))) + tail
         == [STAR, SP] + n + [SP] + name + [SP, LPAREN] + att + tail
  {
  }

  /** `* 1 FETCH (MODSEQ (5))` and CRLF. */
  lemma ModSeqBreaks()
    ensures ParseResponse([STAR, SP] + ONE + [SP] + Words.FETCH + [SP, LPAREN] + MODSEQ + MODSEQ_REST).Hard()
  {
    hide ParseResponse, AttNameOk, KnownAttribute, Fits, AllOk, EqCi, Words.FETCH, MODSEQ, ONE, Ahead;
    OneIsNumeral();
    ModSeqIsUnknown();
    UnknownAttributeBreaks(Words.FETCH, ONE, [], MODSEQ, MODSEQ_REST);
    RegroupFetch(ONE, Words.FETCH, MODSEQ, MODSEQ_REST);
  }

  // ---------------------------------------------------------------------------
  // Response codes
  // ---------------------------------------------------------------------------

  datatype SentCode =
    | CodeAlert | CodeParse | CodeReadOnly | CodeReadWrite | CodeTryCreate
    | CodeUidNext(n: Numeral) | CodeUidValidity(n: Numeral) | CodeUnseen(n: Numeral)
    | CodeCapabilities(caps: seq<bytes>)
    | CodePermanentFlags(flags: seq<bytes>)
    | CodeBadCharset(charsets: Option<seq<bytes>>)
    | CodeOther(extra: Option<bytes>)

  /** A response code with its atom as the server spells it. */
  datatype SpelledCode = SpelledCode(atom: bytes, code: SentCode)

  function CodeAtom(c: SentCode): bytes
    requires !c.CodeOther?
  {
    match c
    case CodeAlert => Words.ALERT
    case CodeParse => Words.PARSE
    case CodeReadOnly => Words.READ_ONLY
    case CodeReadWrite => Words.READ_WRITE
    case CodeTryCreate => Words.TRYCREATE
    case CodeUidNext(_) => Words.UIDNEXT
    case CodeUidValidity(_) => Words.UIDVALIDITY
    case CodeUnseen(_) => Words.UNSEEN
    case CodeCapabilities(_) => Words.CAPABILITY
    case CodePermanentFlags(_) => Words.PERMANENTFLAGS
    case CodeBadCharset(_) => Words.BADCHARSET
  }

  function RenderArgument(c: SentCode): bytes {
    match c
    case CodeUidNext(n) => [SP] + n
    case CodeUidValidity(n) => [SP] + n
    case CodeUnseen(n) => [SP] + n
    case CodeCapabilities(caps) => RenderCaps(caps)
    case CodePermanentFlags(flags) => SpList(flags)
    case CodeBadCharset(Some(charsets)) => SpList(charsets)
    case CodeOther(Some(extra)) => [SP] + extra
    case _ => []
  }

  function CodeMeaning(s: SpelledCode): ResponseCode {
    match s.code
    case CodeAlert => Alert
    case CodeParse => Parse
    case CodeReadOnly => ReadOnly
    case CodeReadWrite => ReadWrite
    case CodeTryCreate => TryCreate
    case CodeUidNext(n) => UidNext(Decimal(n))
    case CodeUidValidity(n) => UidValidity(Decimal(n))
    case CodeUnseen(n) => Unseen(Decimal(n))
    case CodeCapabilities(caps) => CodeCapability(caps)
    case CodePermanentFlags(flags) => PermanentFlags(flags)
    case CodeBadCharset(charsets) => BadCharset(if charsets.Some? then charsets.value else [])
    case CodeOther(extra) => OtherCode(s.atom, extra)
  }

  predicate KnownCode(atom: bytes) {
    || EqCi(atom, Words.ALERT) || EqCi(atom, Words.PARSE) || EqCi(atom, Words.READ_ONLY) || EqCi(atom, Words.READ_WRITE)
    || EqCi(atom, Words.TRYCREATE) || EqCi(atom, Words.UIDNEXT)
    || EqCi(atom, Words.UIDVALIDITY) || EqCi(atom, Words.UNSEEN)
    || EqCi(atom, Words.CAPABILITY) || EqCi(atom, Words.PERMANENTFLAGS) || EqCi(atom, Words.BADCHARSET)
  }

  predicate CodeAtomOk(w: bytes) {
    |w| > 0 && AllIn(CodeChar, w) && Utf8(w)
  }

  ghost predicate ArgumentOk(c: SentCode) {
    match c
    case CodeUidNext(n) => Fits(n)
    case CodeUidValidity(n) => Fits(n)
    case CodeUnseen(n) => Fits(n)
    case CodeCapabilities(caps) => AllAtoms(caps)
    case CodePermanentFlags(flags) => AllFlagText(flags)
    case CodeBadCharset(Some(charsets)) => AllFlagText(charsets)
    case CodeOther(Some(extra)) => AllIn(SectionChar, extra) && Utf8(extra)
    case _ => true
  }

  ghost predicate CodeOk(s: SpelledCode) {
    && ArgumentOk(s.code)
    && if s.code.CodeOther? then CodeAtomOk(s.atom) && !KnownCode(s.atom) else EqCi(s.atom, CodeAtom(s.code))
  }

  function CodeKindIs(c: SentCode): CodeKind {
    match c
    case CodeAlert => KAlert
    case CodeParse => KParse
    case CodeReadOnly => KReadOnly
    case CodeReadWrite => KReadWrite
    case CodeTryCreate => KTryCreate
    case CodeUidNext(_) => KUidNext
    case CodeUidValidity(_) => KUidValidity
    case CodeUnseen(_) => KUnseen
    case CodeCapabilities(_) => KCodeCapability
    case CodePermanentFlags(_) => KPermanentFlags
    case CodeBadCharset(_) => KBadCharset
    case CodeOther(_) => KOtherCode
  }

  lemma KeywordCode(c: SentCode)
    requires !c.CodeOther?
    ensures CodeKindOf(CodeAtom(c)) == CodeKindIs(c)
  {
    var w := CodeAtom(c);
    assert c.CodeParse? ==> Lower(w[0]) != Lower(ALERT[0]);
    assert c.CodeTryCreate? ==> Lower(w[0]) != Lower(READ_ONLY[0]);
    assert c.CodeCapabilities? ==> Lower(w[0]) != Lower(READ_WRITE[0]);
    assert c.CodeBadCharset? ==> Lower(w[0]) != Lower(READ_WRITE[0]) && Lower(w[0]) != Lower(CAPABILITY[0]);
  }

  lemma CodeIgnoresCase(x: bytes, y: bytes)
    requires EqCi(x, y)
    ensures CodeKindOf(x) == CodeKindOf(y)
  {
    hide EqCi;
    SameWord(x, y, ALERT);
    SameWord(x, y, PARSE);
    SameWord(x, y, READ_ONLY);
    SameWord(x, y, READ_WRITE);
    SameWord(x, y, TRYCREATE);
    SameWord(x, y, UIDNEXT);
    SameWord(x, y, UIDVALIDITY);
    SameWord(x, y, UNSEEN);
    SameWord(x, y, CAPABILITY);
    SameWord(x, y, PERMANENTFLAGS);
    SameWord(x, y, BADCHARSET);
  }

  /** Letters and hyphens. */
  predicate CodeLetters(w: bytes) {
    forall k :: 0 <= k < |w| ==> IsLetter(w[k]) || w[k] == 45
  }

  lemma KeywordCodeLetters(c: SentCode)
    requires !c.CodeOther?
    ensures |CodeAtom(c)| > 0 && CodeLetters(CodeAtom(c))
  {
  }

  lemma SpelledCodeAtom(w: bytes, kw: bytes)
    requires EqCi(w, kw) && |kw| > 0 && CodeLetters(kw)
    ensures CodeAtomOk(w)
  {
    hide Utf8;
    assert AllIn(CodeChar, kw);
    SpelledInClass(CodeChar, w, kw);
    SpelledAscii(w, kw);
    AsciiIsUtf8(w);
  }

  lemma CodeName(s: SpelledCode)
    requires CodeOk(s)
    ensures CodeAtomOk(s.atom) && CodeKindOf(s.atom) == CodeKindIs(s.code)
  {
    hide CodeAtomOk, CodeAtom, EqCi, ArgumentOk, CodeLetters;
    if !s.code.CodeOther? {
      KeywordCode(s.code);
      KeywordCodeLetters(s.code);
      CodeIgnoresCase(s.atom, CodeAtom(s.code));
      SpelledCodeAtom(s.atom, CodeAtom(s.code));
    }
  }

  predicate CodeEnds(a: bytes, e: nat) {
    e < |a| && a[e] == RBRACKET
  }

  /** The argument of `s` at `i` is read as meant. */
  ghost predicate ArgumentRead(a: bytes, i: nat, t: nat, s: SpelledCode)
    requires i <= |a|
  {
    CodeArgument(a, i, t, s.atom) ==
    Within(CodeItems(Some(CodeMeaning(s))), t, CodeMeaning(s), i + |RenderArgument(s.code)|)
  }

  lemma OtherArgumentAt(a: bytes, i: nat, t: nat, s: SpelledCode)
    requires s.code.CodeOther? && ArgumentOk(s.code) && CodeKindOf(s.atom) == KOtherCode
    requires At(a, i, RenderArgument(s.code)) && CodeEnds(a, i + |RenderArgument(s.code)|)
    ensures i <= |a| && ArgumentRead(a, i, t, s)
  {
    hide At, Utf8, CodeKindOf, AllIn, ReadSection;
    if s.code.extra.Some? {
      AtByte(a, i, SP, s.code.extra.value);
      SectionBytesAt(a, i + 1, t, s.code.extra.value);
    }
  }

  lemma CharsetsAt(a: bytes, i: nat, t: nat, s: SpelledCode)
    requires s.code.CodeBadCharset? && ArgumentOk(s.code) && CodeKindOf(s.atom) == KBadCharset
    requires At(a, i, RenderArgument(s.code)) && CodeEnds(a, i + |RenderArgument(s.code)|)
    ensures i <= |a| && ArgumentRead(a, i, t, s)
  {
    hide At, AtomList, CodeKindOf, Wire.FlagText, Wire.Parenthesised;
    if s.code.charsets.Some? {
      AtByte(a, i, SP, Wire.Parenthesised(s.code.charsets.value));
      Wire.FlagListAt(a, i + 1, t, s.code.charsets.value);
    }
  }

  lemma NumberArgumentAt(a: bytes, i: nat, t: nat, s: SpelledCode)
    requires s.code.CodeUidNext? || s.code.CodeUidValidity? || s.code.CodeUnseen?
    requires ArgumentOk(s.code) && CodeKindOf(s.atom) == CodeKindIs(s.code)
    requires At(a, i, RenderArgument(s.code)) && CodeEnds(a, i + |RenderArgument(s.code)|)
    ensures i <= |a| && ArgumentRead(a, i, t, s)
  {
    hide At, Number, CodeKindOf, Decimal, Fits;
    AtByte(a, i, SP, s.code.n);
    NumeralAt(a, i + 1, t, s.code.n);
  }

  lemma CapsArgumentAt(a: bytes, i: nat, t: nat, s: SpelledCode)
    requires s.code.CodeCapabilities? && ArgumentOk(s.code) && CodeKindOf(s.atom) == KCodeCapability
    requires At(a, i, RenderArgument(s.code)) && CodeEnds(a, i + |RenderArgument(s.code)|)
    ensures i <= |a| && ArgumentRead(a, i, t, s)
  {
    hide At, CapsRest, CodeKindOf, RenderCaps, AllAtoms;
    var caps := s.code.caps;
    AtSlice(a, i, RenderCaps(caps));
    DelimiterEndsAtom(a, i + |RenderCaps(caps)|);
    CapsAt(a, i, t, caps, []);
    assert [] + caps == caps;
  }

  lemma FlagsArgumentAt(a: bytes, i: nat, t: nat, s: SpelledCode)
    requires s.code.CodePermanentFlags? && ArgumentOk(s.code) && CodeKindOf(s.atom) == KPermanentFlags
    requires At(a, i, RenderArgument(s.code))
    ensures i <= |a| && ArgumentRead(a, i, t, s)
  {
    hide At, SpAtomList, CodeKindOf, AllFlagText, SpList;
    AtSlice(a, i, SpList(s.code.flags));
    FlagsAfterSp(a, i, t, s.code.flags);
  }

  lemma NoArgument(a: bytes, i: nat, t: nat, s: SpelledCode)
    requires RenderArgument(s.code) == [] && CodeKindOf(s.atom) == CodeKindIs(s.code) && i <= |a|
    requires || s.code.CodeAlert? || s.code.CodeParse? || s.code.CodeReadOnly?
             || s.code.CodeReadWrite? || s.code.CodeTryCreate?
    ensures ArgumentRead(a, i, t, s)
  {
    hide CodeKindOf;
  }

  /** Each response code reads its own argument. */
  lemma ArgumentAt(a: bytes, i: nat, t: nat, s: SpelledCode)
    requires CodeOk(s) && At(a, i, RenderArgument(s.code)) && CodeEnds(a, i + |RenderArgument(s.code)|)
    ensures i <= |a| && ArgumentRead(a, i, t, s)
  {
    hide At, CodeEnds, ArgumentRead, ArgumentOk, CodeKindOf, CodeAtomOk, EqCi, RenderCaps, SpList;
    CodeName(s);
    AtSlice(a, i, RenderArgument(s.code));
    match s.code
    case CodeUidNext(_) => NumberArgumentAt(a, i, t, s);
    case CodeUidValidity(_) => NumberArgumentAt(a, i, t, s);
    case CodeUnseen(_) => NumberArgumentAt(a, i, t, s);
    case CodeCapabilities(_) => CapsArgumentAt(a, i, t, s);
    case CodePermanentFlags(_) => FlagsArgumentAt(a, i, t, s);
    case CodeBadCharset(_) => CharsetsAt(a, i, t, s);
    case CodeOther(_) => OtherArgumentAt(a, i, t, s);
    case _ => NoArgument(a, i, t, s);
  }

  lemma ArgumentStarts(a: bytes, i: nat, c: SentCode)
    requires At(a, i, RenderArgument(c)) && CodeEnds(a, i + |RenderArgument(c)|)
    ensures i < |a| && (a[i] == SP || a[i] == RBRACKET)
  {
    if |RenderArgument(c)| > 0 {
      AtFirst(a, i, RenderArgument(c));
    }
  }

  function RenderCode(s: SpelledCode): bytes {
    s.atom + RenderArgument(s.code)
  }

  lemma CodeAt(a: bytes, i: nat, t: nat, s: SpelledCode)
    requires CodeOk(s) && At(a, i, RenderCode(s)) && CodeEnds(a, i + |RenderCode(s)|)
    ensures i <= |a|
    ensures RespTextCode(a, i, t) ==
            Within(CodeItems(Some(CodeMeaning(s))), t, CodeMeaning(s), i + |RenderCode(s)|)
  {
    hide At, Utf8, RenderArgument, CodeArgument, CodeMeaning, CodeItems, CodeOk, CodeKindOf;
    AtConcat(a, i, s.atom, RenderArgument(s.code));
    CodeName(s);
    ArgumentStarts(a, i + |s.atom|, s.code);
    ScanAt(a, i, CodeChar, s.atom);
    AtSlice(a, i, s.atom);
    ArgumentAt(a, i + |s.atom|, t, s);
  }

  // ---------------------------------------------------------------------------
  // Response texts
  // ---------------------------------------------------------------------------

  /** What follows a status keyword or `+ `: an optional code, an optional space after it, and text. */
  datatype SentText = NoCode(text: bytes) | Coded(code: SpelledCode, gap: bool, text: bytes)

  predicate TextOk(x: bytes) {
    AllIn(TextChar, x) && Utf8(x)
  }

  /** Text without a code must not look as if it had one, and text right after a code must not start
      with the space that is skipped there. */
  ghost predicate SentTextOk(x: SentText) {
    && TextOk(x.text)
    && match x
       case NoCode(text) => |text| == 0 || text[0] != LBRACKET
       case Coded(code, gap, text) => CodeOk(code) && (gap || |text| == 0 || text[0] != SP)
  }

  function Gap(gap: bool): bytes {
    if gap then [SP] else []
  }

  function RenderText(x: SentText): bytes {
    match x
    case NoCode(text) => text
    case Coded(code, gap, text) => [LBRACKET] + RenderCode(code) + [RBRACKET] + Gap(gap) + text
  }

  function TextMeaning(x: SentText): (Option<ResponseCode>, bytes) {
    match x
    case NoCode(text) => (None, text)
    case Coded(code, _, text) => (Some(CodeMeaning(code)), text)
  }

  predicate LineEnds(a: bytes, e: nat) {
    e < |a| && a[e] == CR
  }

  lemma TextAt(a: bytes, i: nat, t: nat, x: bytes)
    requires At(a, i, x) && TextOk(x) && LineEnds(a, i + |x|)
    ensures Text(a, i, t) == Ok(x, i + |x|, t)
  {
    hide At, Utf8;
    ScanAt(a, i, TextChar, x);
    AtSlice(a, i, x);
  }

  lemma CodedParts(a: bytes, i: nat, code: bytes, gap: bool, text: bytes)
    requires At(a, i, [LBRACKET] + code + [RBRACKET] + Gap(gap) + text)
    ensures i < |a| && a[i] == LBRACKET && At(a, i + 1, code)
    ensures var j := i + 1 + |code|;
            j < |a| && a[j] == RBRACKET && At(a, j + 1, Gap(gap)) && At(a, j + 1 + |Gap(gap)|, text)
  {
    hide At, Gap;
    var tail := Gap(gap) + text;
    assert [LBRACKET] + code + [RBRACKET] + Gap(gap) + text == [LBRACKET] + (code + ([RBRACKET] + tail));
    AtByte(a, i, LBRACKET, code + ([RBRACKET] + tail));
    AtConcat(a, i + 1, code, [RBRACKET] + tail);
    AtByte(a, i + 1 + |code|, RBRACKET, tail);
    AtConcat(a, i + 1 + |code| + 1, Gap(gap), text);
  }

  lemma GapAt(a: bytes, i: nat, gap: bool, text: bytes)
    requires At(a, i, Gap(gap)) && At(a, i + |Gap(gap)|, text) && LineEnds(a, i + |Gap(gap)| + |text|)
    requires gap || |text| == 0 || text[0] != SP
    ensures Next(a, i, SP) == gap
  {
    hide At;
    if gap {
      AtFirst(a, i, [SP]);
    } else if |text| > 0 {
      AtFirst(a, i, text);
    }
  }

  lemma CodedTextAt(a: bytes, i: nat, t: nat, x: SentText)
    requires x.Coded? && SentTextOk(x) && At(a, i, RenderText(x)) && LineEnds(a, i + |RenderText(x)|)
    ensures i <= |a|
    ensures RespText(a, i, t) ==
            Within(CodeItems(TextMeaning(x).0), t, TextMeaning(x), i + |RenderText(x)|)
  {
    hide At, Gap, Next, RespTextCode, Text, RenderCode, CodeMeaning, CodeItems, CodeOk, TextOk;
    CodedParts(a, i, RenderCode(x.code), x.gap, x.text);
    var j := i + 1 + |RenderCode(x.code)|;
    CodeAt(a, i + 1, t, x.code);
    GapAt(a, j + 1, x.gap, x.text);
    var cost := CodeItems(Some(CodeMeaning(x.code)));
    GapLength(x.gap);
    assert Next(a, i, LBRACKET) by { NextIs(a, i, LBRACKET); }
    if cost <= t {
      TextAt(a, j + 1 + |Gap(x.gap)|, t - cost, x.text);
    }
  }

  lemma GapLength(gap: bool)
    ensures |Gap(gap)| == if gap then 1 else 0
  {
  }

  lemma NextIs(a: bytes, i: nat, b: byte)
    requires i < |a|
    ensures Next(a, i, b) <==> a[i] == b
  {
  }

  lemma PlainTextAt(a: bytes, i: nat, t: nat, x: SentText)
    requires x.NoCode? && SentTextOk(x) && At(a, i, x.text) && LineEnds(a, i + |x.text|)
    ensures i <= |a|
    ensures RespText(a, i, t) == Ok((None, x.text), i + |x.text|, t)
  {
    hide At, RespTextCode, Text, TextOk;
    AtSlice(a, i, x.text);
    if |x.text| > 0 {
      AtFirst(a, i, x.text);
    }
    TextAt(a, i, t, x.text);
  }

  lemma RespTextAt(a: bytes, i: nat, t: nat, x: SentText)
    requires SentTextOk(x) && At(a, i, RenderText(x)) && LineEnds(a, i + |RenderText(x)|)
    ensures i <= |a|
    ensures RespText(a, i, t) ==
            Within(CodeItems(TextMeaning(x).0), t, TextMeaning(x), i + |RenderText(x)|)
  {
    hide At, LineEnds, RespText, SentTextOk, CodeMeaning;
    if x.Coded? {
      CodedTextAt(a, i, t, x);
    } else {
      PlainTextAt(a, i, t, x);
    }
  }

  // ---------------------------------------------------------------------------
  // Status responses and continuation requests
  // ---------------------------------------------------------------------------

  function StatusWord(s: Status): bytes {
    match s
    case StOk => Words.OK
    case StNo => Words.NO
    case StBad => Words.BAD
    case StPreAuth => Words.PREAUTH
    case StBye => Words.BYE
  }

  /** A status keyword as the server spells it, and the text after it, if any. */
  datatype SentStatusLine = SentStatusLine(word: bytes, status: Status, text: Option<SentText>)

  ghost predicate StatusLineOk(l: SentStatusLine) {
    EqCi(l.word, StatusWord(l.status)) && (l.text.Some? ==> SentTextOk(l.text.value))
  }

  function RenderAfterWord(text: Option<SentText>): bytes {
    match text
    case None => []
    case Some(x) => [SP] + RenderText(x)
  }

  function MeantText(text: Option<SentText>): (Option<ResponseCode>, bytes) {
    match text
    case None => (None, [])
    case Some(x) => TextMeaning(x)
  }

  lemma KeywordIsAt(a: bytes, i: nat, word: bytes, kw: bytes)
    requires At(a, i, word) && EqCi(word, kw) && i + |word| < |a| && IsBoundary(a[i + |word|])
    ensures KeywordAt(a, i, kw)
  {
    SpelledMatches(a, i, word, kw);
  }

  lemma WordStarts(a: bytes, i: nat, word: bytes, kw: bytes)
    requires At(a, i, word) && EqCi(word, kw) && |kw| > 1
    ensures i + 1 < |a| && Lower(a[i]) == Lower(kw[0]) && Lower(a[i + 1]) == Lower(kw[1])
  {
    AtIndex(a, i, word);
    assert a[i + 0] == word[0] && a[i + 1] == word[1];
  }

  lemma ByeIsNotBad(a: bytes, i: nat)
    requires i + 1 < |a| && Lower(a[i + 1]) == Lower(BYE[1])
    ensures !KeywordAt(a, i, BAD)
  {
    assert Lower(a[i + 1]) != Lower(BAD[1]);
  }

  lemma StatusWordAt(a: bytes, i: nat, word: bytes, s: Status)
    requires At(a, i, word) && EqCi(word, StatusWord(s)) && i + |word| < |a| && IsBoundary(a[i + |word|])
    ensures StatusKeyword(a, i) == Some((s, |word|))
  {
    hide At, KeywordAt, EqCi;
    KeywordIsAt(a, i, word, StatusWord(s));
    WordStarts(a, i, word, StatusWord(s));
    SameLength(word, StatusWord(s));
    match s
    case StOk => NotKeyword(a, i, PREAUTH);
    case StNo => NotKeyword(a, i, PREAUTH); NotKeyword(a, i, OK);
    case StBad => NotKeyword(a, i, PREAUTH); NotKeyword(a, i, OK); NotKeyword(a, i, NO);
    case StPreAuth =>
    case StBye =>
      NotKeyword(a, i, PREAUTH);
      NotKeyword(a, i, OK);
      NotKeyword(a, i, NO);
      ByeIsNotBad(a, i);
  }

  lemma SameLength(x: bytes, y: bytes)
    requires EqCi(x, y)
    ensures |x| == |y|
  {
  }

  function RenderStatusLine(l: SentStatusLine): bytes {
    l.word + (RenderAfterWord(l.text) + CRLF)
  }

  lemma AfterWordAt(a: bytes, i: nat, t: nat, text: Option<SentText>)
    requires text.Some? ==> SentTextOk(text.value)
    requires At(a, i, RenderAfterWord(text)) && LineEnds(a, i + |RenderAfterWord(text)|)
    ensures i < |a| && IsBoundary(a[i])
    ensures RespTextAfterKeyword(a, i, t) ==
            Within(CodeItems(MeantText(text).0), t, MeantText(text), i + |RenderAfterWord(text)|)
  {
    hide At, RespText, SentTextOk, RenderText, TextMeaning, CodeItems;
    if text.Some? {
      AtByte(a, i, SP, RenderText(text.value));
      RespTextAt(a, i + 1, t, text.value);
    } else {
      NoCodeIsFree();
    }
  }

  lemma NoCodeIsFree()
    ensures CodeItems(None) == 0
  {
  }

  lemma StatusRestAt(a: bytes, i: nat, t: nat, tag: Option<bytes>, l: SentStatusLine)
    requires StatusLineOk(l) && At(a, i, RenderStatusLine(l))
    ensures StatusKeyword(a, i) == Some((l.status, |l.word|)) && i + |l.word| <= |a|
    ensures StatusRest(a, i + |l.word|, t, tag, l.status) ==
            Within(CodeItems(MeantText(l.text).0), t,
                   StatusResponse(tag, l.status, MeantText(l.text).0, MeantText(l.text).1),
                   i + |RenderStatusLine(l)|)
  {
    hide At, EqCi, StatusKeyword, StatusWord, RespTextAfterKeyword, RenderAfterWord, SentTextOk, MeantText, CodeItems;
    var after := RenderAfterWord(l.text);
    AtConcat(a, i, l.word, after + CRLF);
    var j := i + |l.word|;
    AtConcat(a, j, after, CRLF);
    CrlfAt(a, j + |after|, t);
    AfterWordAt(a, j, t, l.text);
    StatusWordAt(a, i, l.word, l.status);
    var cost := CodeItems(MeantText(l.text).0);
    if cost <= t {
      CrlfAt(a, j + |after|, t - cost);
    }
  }

  /** A tag the parser takes for one: it does not look like an untagged or continuation response. */
  predicate TagOk(tag: bytes) {
    |tag| > 0 && AllIn(TagChar, tag) && Utf8(tag) && tag[0] != STAR && tag[0] != PLUS
  }

  function TagForm(tag: Option<bytes>): bytes {
    match tag
    case None => [STAR]
    case Some(x) => x
  }

  lemma TagAt(a: bytes, i: nat, t: nat, tag: bytes)
    requires At(a, i, tag) && TagOk(tag) && i + |tag| < |a| && a[i + |tag|] == SP
    ensures Tag(a, i, t) == Ok(tag, i + |tag|, t)
  {
    hide At, Utf8;
    ScanAt(a, i, TagChar, tag);
    AtSlice(a, i, tag);
  }

  function RenderStatus(tag: Option<bytes>, l: SentStatusLine): bytes {
    TagForm(tag) + [SP] + RenderStatusLine(l)
  }

  function StatusMeaning(tag: Option<bytes>, l: SentStatusLine): Response {
    StatusResponse(tag, l.status, MeantText(l.text).0, MeantText(l.text).1)
  }

  lemma StatusParts(a: bytes, tag: bytes, line: bytes)
    requires At(a, 0, tag + [SP] + line) && |tag| > 0
    ensures At(a, 0, tag) && a[0] == tag[0]
    ensures |tag| < |a| && a[|tag|] == SP && At(a, |tag| + 1, line)
  {
    hide At;
    assert tag + [SP] + line == tag + ([SP] + line);
    AtConcat(a, 0, tag, [SP] + line);
    AtByte(a, |tag|, SP, line);
    AtFirst(a, 0, tag);
  }

  /** Status responses, tagged or not, with every response code, with and without text. */
  lemma StatusReadsBack(tag: Option<bytes>, l: SentStatusLine, rest: bytes)
    requires StatusLineOk(l) && (tag.Some? ==> TagOk(tag.value))
    ensures ParseResponse(RenderStatus(tag, l) + rest) ==
            Within(CodeItems(MeantText(l.text).0), 65536,
                   StatusMeaning(tag, l), |RenderStatus(tag, l)|)
  {
    hide At, Tag, StatusKeyword, StatusRest, RenderStatusLine, StatusLineOk, MeantText, CodeItems;
    hide ContinueReq, NumericData, NamedData, Utf8, AllIn;
    var a := RenderStatus(tag, l) + rest;
    AtFront(RenderStatus(tag, l), rest);
    StatusParts(a, TagForm(tag), RenderStatusLine(l));
    StatusRestAt(a, |TagForm(tag)| + 1, MAX_ITEMS_PER_RESPONSE, tag, l);
    if tag.Some? {
      TagAt(a, 0, MAX_ITEMS_PER_RESPONSE, tag.value);
    }
  }

  function RenderContinue(x: SentText): bytes {
    [PLUS] + [SP] + (RenderText(x) + CRLF)
  }

  function ContinueMeaning(x: SentText): Response {
    Continue(TextMeaning(x).0, TextMeaning(x).1)
  }

  lemma ContinueReadsBack(x: SentText, rest: bytes)
    requires SentTextOk(x)
    ensures ParseResponse(RenderContinue(x) + rest) ==
            Within(CodeItems(TextMeaning(x).0), 65536, ContinueMeaning(x), |RenderContinue(x)|)
  {
    hide At, RespText, RenderText, SentTextOk, TextMeaning, CodeItems, Untagged, Tagged;
    var a := RenderContinue(x) + rest;
    AtFront(RenderContinue(x), rest);
    StatusParts(a, [PLUS], RenderText(x) + CRLF);
    AtConcat(a, 2, RenderText(x), CRLF);
    var e := 2 + |RenderText(x)|;
    CrlfAt(a, e, MAX_ITEMS_PER_RESPONSE);
    RespTextAt(a, 2, MAX_ITEMS_PER_RESPONSE, x);
    var cost := CodeItems(TextMeaning(x).0);
    if cost <= MAX_ITEMS_PER_RESPONSE {
      CrlfAt(a, e, MAX_ITEMS_PER_RESPONSE - cost);
    }
  }
}
