/** The vocabulary of the protocol, byte for byte, as its standard spells it. What a server writes and
    reads is stated with these words; the program modelled here has words of its own. */
module Words {
  import opened Bytes

  // Status keywords (section 7.1 of RFC 9051), and NIL.
  const PREAUTH: bytes := [80, 82, 69, 65, 85, 84, 72]
  const OK: bytes := [79, 75]
  const NO: bytes := [78, 79]
  const BAD: bytes := [66, 65, 68]
  const BYE: bytes := [66, 89, 69]
  const NIL: bytes := [78, 73, 76]

  // Response codes.
  const ALERT: bytes := [65, 76, 69, 82, 84]
  const PARSE: bytes := [80, 65, 82, 83, 69]
  const READ_ONLY: bytes := [82, 69, 65, 68, 45, 79, 78, 76, 89]
  const READ_WRITE: bytes := [82, 69, 65, 68, 45, 87, 82, 73, 84, 69]
  const TRYCREATE: bytes := [84, 82, 89, 67, 82, 69, 65, 84, 69]
  const UIDNEXT: bytes := [85, 73, 68, 78, 69, 88, 84]
  const UIDVALIDITY: bytes := [85, 73, 68, 86, 65, 76, 73, 68, 73, 84, 89]
  const UNSEEN: bytes := [85, 78, 83, 69, 69, 78]
  const CAPABILITY: bytes := [67, 65, 80, 65, 66, 73, 76, 73, 84, 89]
  const PERMANENTFLAGS: bytes := [80, 69, 82, 77, 65, 78, 69, 78, 84, 70, 76, 65, 71, 83]
  const BADCHARSET: bytes := [66, 65, 68, 67, 72, 65, 82, 83, 69, 84]

  // Data responses and STATUS items.
  const EXISTS: bytes := [69, 88, 73, 83, 84, 83]
  const RECENT: bytes := [82, 69, 67, 69, 78, 84]
  const EXPUNGE: bytes := [69, 88, 80, 85, 78, 71, 69]
  const FETCH: bytes := [70, 69, 84, 67, 72]
  const LIST: bytes := [76, 73, 83, 84]
  const LSUB: bytes := [76, 83, 85, 66]
  const STATUS: bytes := [83, 84, 65, 84, 85, 83]
  const SEARCH: bytes := [83, 69, 65, 82, 67, 72]
  const FLAGS: bytes := [70, 76, 65, 71, 83]
  const MESSAGES: bytes := [77, 69, 83, 83, 65, 71, 69, 83]

  // FETCH attributes.
  const UID: bytes := [85, 73, 68]
  const INTERNALDATE: bytes := [73, 78, 84, 69, 82, 78, 65, 76, 68, 65, 84, 69]
  const RFC822_SIZE: bytes := [82, 70, 67, 56, 50, 50, 46, 83, 73, 90, 69]
  const RFC822: bytes := [82, 70, 67, 56, 50, 50]
  const RFC822_HEADER: bytes := [82, 70, 67, 56, 50, 50, 46, 72, 69, 65, 68, 69, 82]
  const RFC822_TEXT: bytes := [82, 70, 67, 56, 50, 50, 46, 84, 69, 88, 84]
  const ENVELOPE: bytes := [69, 78, 86, 69, 76, 79, 80, 69]
  const BODYSTRUCTURE: bytes := [66, 79, 68, 89, 83, 84, 82, 85, 67, 84, 85, 82, 69]
  const BODY: bytes := [66, 79, 68, 89]

  // Search keys (section 6.4.4 of RFC 9051).
  const OR: bytes := [79, 82]
  const NOT: bytes := [78, 79, 84]
  const ALL: bytes := [65, 76, 76]
  const ANSWERED: bytes := [65, 78, 83, 87, 69, 82, 69, 68]
  const DELETED: bytes := [68, 69, 76, 69, 84, 69, 68]
  const DRAFT: bytes := [68, 82, 65, 70, 84]
  const FLAGGED: bytes := [70, 76, 65, 71, 71, 69, 68]
  const SEEN: bytes := [83, 69, 69, 78]
  const UNANSWERED: bytes := [85, 78, 65, 78, 83, 87, 69, 82, 69, 68]
  const UNDELETED: bytes := [85, 78, 68, 69, 76, 69, 84, 69, 68]
  const UNDRAFT: bytes := [85, 78, 68, 82, 65, 70, 84]
  const UNFLAGGED: bytes := [85, 78, 70, 76, 65, 71, 71, 69, 68]
  const FROM: bytes := [70, 82, 79, 77]
  const TO: bytes := [84, 79]
  const SUBJECT: bytes := [83, 85, 66, 74, 69, 67, 84]
  const TEXT: bytes := [84, 69, 88, 84]

  // System flags (section 2.3.2 of RFC 9051), with their backslash.
  const SEEN_FLAG: bytes := [92, 83, 101, 101, 110]
  const ANSWERED_FLAG: bytes := [92, 65, 110, 115, 119, 101, 114, 101, 100]
  const FLAGGED_FLAG: bytes := [92, 70, 108, 97, 103, 103, 101, 100]
  const DELETED_FLAG: bytes := [92, 68, 101, 108, 101, 116, 101, 100]
  const DRAFT_FLAG: bytes := [92, 68, 114, 97, 102, 116]
  const RECENT_FLAG: bytes := [92, 82, 101, 99, 101, 110, 116]

  // Commands.
  const STARTTLS: bytes := [83, 84, 65, 82, 84, 84, 76, 83]
  const LOGIN: bytes := [76, 79, 71, 73, 78]

  function Octet(c: char): byte {
    if c as int < 128 then c as int else 0
  }

  /** The ASCII bytes of a string. */
  function Spell(s: string): (b: bytes)
    ensures |b| == |s| && forall i :: 0 <= i < |s| ==> b[i] == Octet(s[i])
  {
    seq(|s|, i requires 0 <= i < |s| => Octet(s[i]))
  }

  lemma SpelledStatus()
    ensures PREAUTH == Spell("PREAUTH") && OK == Spell("OK")
    ensures NO == Spell("NO") && BAD == Spell("BAD")
    ensures BYE == Spell("BYE") && NIL == Spell("NIL")
  {
  }

  lemma SpelledCodes()
    ensures ALERT == Spell("ALERT") && PARSE == Spell("PARSE")
    ensures READ_ONLY == Spell("READ-ONLY") && READ_WRITE == Spell("READ-WRITE")
    ensures TRYCREATE == Spell("TRYCREATE") && UIDNEXT == Spell("UIDNEXT")
    ensures UIDVALIDITY == Spell("UIDVALIDITY") && UNSEEN == Spell("UNSEEN")
    ensures CAPABILITY == Spell("CAPABILITY") && PERMANENTFLAGS == Spell("PERMANENTFLAGS")
    ensures BADCHARSET == Spell("BADCHARSET")
  {
  }

  lemma SpelledData()
    ensures EXISTS == Spell("EXISTS") && RECENT == Spell("RECENT")
    ensures EXPUNGE == Spell("EXPUNGE") && FETCH == Spell("FETCH")
    ensures LIST == Spell("LIST") && LSUB == Spell("LSUB")
    ensures STATUS == Spell("STATUS") && SEARCH == Spell("SEARCH")
    ensures FLAGS == Spell("FLAGS") && MESSAGES == Spell("MESSAGES")
  {
  }

  lemma SpelledAttributes()
    ensures UID == Spell("UID") && INTERNALDATE == Spell("INTERNALDATE")
    ensures RFC822_SIZE == Spell("RFC822.SIZE") && RFC822 == Spell("RFC822")
    ensures RFC822_HEADER == Spell("RFC822.HEADER") && RFC822_TEXT == Spell("RFC822.TEXT")
    ensures ENVELOPE == Spell("ENVELOPE") && BODYSTRUCTURE == Spell("BODYSTRUCTURE")
    ensures BODY == Spell("BODY")
  {
  }

  lemma SpelledSearch()
    ensures OR == Spell("OR") && NOT == Spell("NOT")
    ensures ALL == Spell("ALL") && ANSWERED == Spell("ANSWERED")
    ensures DELETED == Spell("DELETED") && DRAFT == Spell("DRAFT")
    ensures FLAGGED == Spell("FLAGGED") && SEEN == Spell("SEEN")
    ensures UNANSWERED == Spell("UNANSWERED") && UNDELETED == Spell("UNDELETED")
    ensures UNDRAFT == Spell("UNDRAFT") && UNFLAGGED == Spell("UNFLAGGED")
    ensures FROM == Spell("FROM") && TO == Spell("TO")
    ensures SUBJECT == Spell("SUBJECT") && TEXT == Spell("TEXT")
  {
  }

  lemma SpelledFlags()
    ensures SEEN_FLAG == Spell("\\Seen") && ANSWERED_FLAG == Spell("\\Answered")
    ensures FLAGGED_FLAG == Spell("\\Flagged") && DELETED_FLAG == Spell("\\Deleted")
    ensures DRAFT_FLAG == Spell("\\Draft") && RECENT_FLAG == Spell("\\Recent")
  {
  }

  lemma SpelledCommands()
    ensures STARTTLS == Spell("STARTTLS") && LOGIN == Spell("LOGIN")
  {
  }
}
