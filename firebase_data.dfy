/**
 * Retrieval and normalisation of the stored conversations
 * (src/composables/useFirebaseData.ts): the push-key decoder, the shallow
 * record validator, the filter/resolve/sort pipeline with its error paths,
 * and the two selectors over its result.
 *
 * The HTTP request, `response.text()`, `JSON.parse` and `Date.now()` are
 * inputs: a `FetchOutcome` says what the network and the parser produced,
 * and `now` is the clock reading.
 */
module FirebaseData {
  import opened Wrappers
  import opened Builtins
  import Sorting

  // ===========================================================================
  // Push-key decoder

  const DecimalDigits: string := "0123456789"
  const UpperLetters: string := "ABCDEFGHIJKLMNOPQRSTUVWXYZ"
  const LowerLetters: string := "abcdefghijklmnopqrstuvwxyz"

  /** The 64-character push-ID alphabet, `-0-9A-Z_a-z`, written as its five runs. */
  const PushChars: string := "-" + DecimalDigits + UpperLetters + "_" + LowerLetters

  /** Only this many leading characters of a key are decoded. */
  const SignificantLength: nat := 8

  function Pow64(n: nat): (p: nat)
    ensures p >= 1
  {
    if n == 0 then 1 else 64 * Pow64(n - 1)
  }

  /** The value of `id` read as base-64 digits over `PushChars`, most significant first; a character outside the alphabet counts as -1. */
  function DigitsValue(id: string): int {
    if id == [] then 0
    else DigitsValue(id[..|id| - 1]) * 64 + IndexOf(PushChars, id[|id| - 1])
  }

  /** The part of a key that the decoder reads. */
  function Significant(key: string): (id: string)
    ensures |id| == Min(SignificantLength, |key|) && id <= key
  {
    key[..Min(SignificantLength, |key|)]
  }

  /** What `decodeFirebaseKey(key)` returns. */
  function DecodedKey(key: string): (t: int)
    ensures |key| > SignificantLength ==> t == DecodedKey(key[..SignificantLength])
  {
    assert |key| > SignificantLength ==> Significant(key[..SignificantLength]) == Significant(key);
    DigitsValue(Significant(key))
  }

  /** decodeFirebaseKey: fold the first eight characters into a number. */
  method DecodeFirebaseKey(key: string) returns (timestamp: int)
    ensures timestamp == DecodedKey(key)
  {
    timestamp := 0;
    var id := key[..Min(SignificantLength, |key|)];
    for i := 0 to |id|
      invariant timestamp == DigitsValue(id[..i])
    {
      assert id[..i + 1][..i] == id[..i];
      timestamp := timestamp * 64 + IndexOf(PushChars, id[i]);
    }
    assert id[..|id|] == id;
  }

  lemma DecimalDigitCodes()
    ensures |DecimalDigits| == 10
    ensures forall i :: 0 <= i < 10 ==> DecimalDigits[i] as int == '0' as int + i
  {
    var s := DecimalDigits;
    assert s[0] == '0' && s[1] == '1' && s[2] == '2' && s[3] == '3' && s[4] == '4';
    assert s[5] == '5' && s[6] == '6' && s[7] == '7' && s[8] == '8' && s[9] == '9';
  }

  /** Two runs of consecutive code points, the second starting where the first ends, make one run. */
  lemma RunConcat(a: string, b: string, first: int)
    requires forall i :: 0 <= i < |a| ==> a[i] as int == first + i
    requires forall i :: 0 <= i < |b| ==> b[i] as int == first + |a| + i
    ensures forall i :: 0 <= i < |a + b| ==> (a + b)[i] as int == first + i
  {
    forall i | 0 <= i < |a + b| ensures (a + b)[i] as int == first + i {
      if i < |a| {
        assert (a + b)[i] == a[i];
      } else {
        assert (a + b)[i] == b[i - |a|];
      }
    }
  }

  lemma UpperLetterCodes()
    ensures |UpperLetters| == 26
    ensures forall i :: 0 <= i < 26 ==> UpperLetters[i] as int == 'A' as int + i
  {
    var a, b := "ABCDEFGHIJKLM", "NOPQRSTUVWXYZ";
    assert UpperLetters == a + b;
    assert forall i :: 0 <= i < 13 ==> a[i] as int == 'A' as int + i by {
      assert a[0] == 'A' && a[1] == 'B' && a[2] == 'C' && a[3] == 'D' && a[4] == 'E' && a[5] == 'F' && a[6] == 'G';
      assert a[7] == 'H' && a[8] == 'I' && a[9] == 'J' && a[10] == 'K' && a[11] == 'L' && a[12] == 'M';
    }
    assert forall i :: 0 <= i < 13 ==> b[i] as int == 'A' as int + 13 + i by {
      assert b[0] == 'N' && b[1] == 'O' && b[2] == 'P' && b[3] == 'Q' && b[4] == 'R' && b[5] == 'S' && b[6] == 'T';
      assert b[7] == 'U' && b[8] == 'V' && b[9] == 'W' && b[10] == 'X' && b[11] == 'Y' && b[12] == 'Z';
    }
    RunConcat(a, b, 'A' as int);
  }

  lemma LowerLetterCodes()
    ensures |LowerLetters| == 26
    ensures forall i :: 0 <= i < 26 ==> LowerLetters[i] as int == 'a' as int + i
  {
    var a, b := "abcdefghijklm", "nopqrstuvwxyz";
    assert LowerLetters == a + b;
    assert forall i :: 0 <= i < 13 ==> a[i] as int == 'a' as int + i by {
      assert a[0] == 'a' && a[1] == 'b' && a[2] == 'c' && a[3] == 'd' && a[4] == 'e' && a[5] == 'f' && a[6] == 'g';
      assert a[7] == 'h' && a[8] == 'i' && a[9] == 'j' && a[10] == 'k' && a[11] == 'l' && a[12] == 'm';
    }
    assert forall i :: 0 <= i < 13 ==> b[i] as int == 'a' as int + 13 + i by {
      assert b[0] == 'n' && b[1] == 'o' && b[2] == 'p' && b[3] == 'q' && b[4] == 'r' && b[5] == 's' && b[6] == 't';
      assert b[7] == 'u' && b[8] == 'v' && b[9] == 'w' && b[10] == 'x' && b[11] == 'y' && b[12] == 'z';
    }
    RunConcat(a, b, 'a' as int);
  }

  /** The alphabet has 64 characters, starts with `-`, and is in strictly increasing code-point order. */
  lemma PushCharsOrdered()
    ensures |PushChars| == 64 && PushChars[0] == '-'
    ensures forall i, j :: 0 <= i < j < 64 ==> PushChars[i] < PushChars[j]
  {
    DecimalDigitCodes();
    UpperLetterCodes();
    LowerLetterCodes();
  }

  /** In a strictly increasing alphabet, `indexOf` finds each character at its own position. */
  lemma IndexOfPushChar(d: nat)
    requires d < 64
    ensures IndexOf(PushChars, PushChars[d]) == d
  {
    PushCharsOrdered();
  }

  predicate InAlphabet(id: string) {
    forall i :: 0 <= i < |id| ==> id[i] in PushChars
  }

  /** One more base-64 digit stays below the next power. */
  lemma DigitStepBound(v: int, d: int, p: int)
    requires 0 <= v < p && 0 <= d < 64
    ensures 0 <= v * 64 + d < 64 * p
  {
  }

  lemma InAlphabetPrefix(id: string, n: nat)
    requires InAlphabet(id) && n <= |id|
    ensures InAlphabet(id[..n])
  {
    forall i | 0 <= i < n ensures id[..n][i] in PushChars { assert id[..n][i] == id[i]; }
  }

  lemma {:induction false} DigitsValueRange(id: string)
    requires InAlphabet(id)
    ensures 0 <= DigitsValue(id) < Pow64(|id|)
  {
    if id != [] {
      var p := id[..|id| - 1];
      InAlphabetPrefix(id, |id| - 1);
      DigitsValueRange(p);
      DigitStepBound(DigitsValue(p), IndexOf(PushChars, id[|id| - 1]), Pow64(|p|));
    }
  }

  /** For a key over the alphabet, the decoded value has at most 6 bits per significant character. */
  lemma DecodeRange(key: string)
    requires InAlphabet(Significant(key))
    ensures 0 <= DecodedKey(key) < Pow64(|Significant(key)|)
  {
    DigitsValueRange(Significant(key));
  }

  lemma {:induction false} DigitsValueZero(id: string)
    ensures DigitsValue(id) == 0 <==> forall i :: 0 <= i < |id| ==> id[i] == '-'
  {
    if id != [] {
      var p := id[..|id| - 1];
      var c := id[|id| - 1];
      DigitsValueZero(p);
      PushCharsOrdered();
      var d := IndexOf(PushChars, c);
      if DigitsValue(id) == 0 {
        assert DigitsValue(p) == 0 && d == 0;
        forall i | 0 <= i < |id| ensures id[i] == '-' {
          if i < |id| - 1 { assert id[i] == p[i]; }
        }
      }
      if forall i :: 0 <= i < |id| ==> id[i] == '-' {
        forall i | 0 <= i < |p| ensures p[i] == '-' { assert p[i] == id[i]; }
        assert c == '-';
      }
    }
  }

  /**
   * The decoder yields 0 exactly when every significant character is `-`,
   * whatever the characters are: a digit is at least -1, so a non-zero
   * prefix cannot be cancelled by the next step.
   */
  lemma DecodeZero(key: string)
    ensures DecodedKey(key) == 0 <==> forall i :: 0 <= i < Min(SignificantLength, |key|) ==> key[i] == '-'
  {
    var id := Significant(key);
    assert DecodedKey(key) == DigitsValue(id);
    DigitsValueZero(id);
    assert forall i :: 0 <= i < |id| ==> id[i] == key[i];
  }

  /**
   * The timestamp part of a push ID: `t` written with `n` base-64 digits over
   * `PushChars`, most significant first (the scheme the decoder relies on; the
   * generator itself is not part of this repository).
   */
  function EncodePushTime(t: nat, n: nat): (id: string)
    ensures |id| == n
  {
    if n == 0 then []
    else
      assert |PushChars| == 64;
      EncodePushTime(t / 64, n - 1) + [PushChars[t % 64]]
  }

  /** An encoded time prefix uses only characters of the alphabet, so the decoder reads every digit of it. */
  lemma {:induction false} EncodeInAlphabet(t: nat, n: nat)
    ensures InAlphabet(EncodePushTime(t, n))
  {
    if n > 0 {
      assert |PushChars| == 64;
      EncodeInAlphabet(t / 64, n - 1);
      var id := EncodePushTime(t, n);
      assert id == EncodePushTime(t / 64, n - 1) + [PushChars[t % 64]];
      assert id[n - 1] in PushChars;
    }
  }

  /** One more digit: the encoding of `t` is that of `t / 64` followed by the digit `t % 64`. */
  lemma EncodeLastDigit(t: nat, n: nat)
    requires n > 0 && DigitsValue(EncodePushTime(t / 64, n - 1)) == t / 64
    ensures DigitsValue(EncodePushTime(t, n)) == t
  {
    assert |PushChars| == 64;
    var prefix, c := EncodePushTime(t / 64, n - 1), PushChars[t % 64];
    var id := EncodePushTime(t, n);
    assert id[..|id| - 1] == prefix && id[|id| - 1] == c;
    IndexOfPushChar(t % 64);
  }

  lemma QuotientBound(t: nat, p: nat)
    requires t < 64 * p
    ensures t / 64 < p
  {
  }

  lemma {:induction false} DigitsValueOfEncoding(t: nat, n: nat)
    requires t < Pow64(n)
    ensures DigitsValue(EncodePushTime(t, n)) == t
  {
    if n > 0 {
      QuotientBound(t, Pow64(n - 1));
      DigitsValueOfEncoding(t / 64, n - 1);
      EncodeLastDigit(t, n);
    }
  }

  /** Decoding a push ID gives back the timestamp encoded in its first eight characters, whatever follows. */
  lemma PushKeyRoundTrip(t: nat, rest: string)
    requires t < Pow64(SignificantLength)
    ensures DecodedKey(EncodePushTime(t, SignificantLength) + rest) == t
  {
    var key := EncodePushTime(t, SignificantLength) + rest;
    assert Significant(key) == EncodePushTime(t, SignificantLength);
    DigitsValueOfEncoding(t, SignificantLength);
  }

  // ===========================================================================
  // Raw records and the validator

  /** A JSON value as `JSON.parse` returns it. Numbers are integers in this model. */
  datatype Json =
    | JNull
    | JBool(b: bool)
    | JNum(n: int)
    | JStr(s: string)
    | JArr(items: seq<Json>)
    | JObj(members: map<string, Json>)

  /** `v.name`: None stands for `undefined`; only objects have named members. */
  function Member(v: Json, name: string): Option<Json> {
    if v.JObj? && name in v.members then Some(v.members[name]) else None
  }

  /** JavaScript truthiness of a value that may be `undefined`. */
  predicate Truthy(v: Option<Json>) {
    match v
    case None => false
    case Some(JNull) => false
    case Some(JBool(b)) => b
    case Some(JNum(n)) => n != 0
    case Some(JStr(s)) => s != []
    case Some(_) => true
  }

  /** `Array.isArray(v) && v.length > 0`. */
  predicate IsNonEmptyArray(v: Option<Json>) {
    v.Some? && v.value.JArr? && |v.value.items| > 0
  }

  /** isValidConversation: the required members are present and of the right shape; array elements are not inspected. */
  predicate IsValidConversation(conv: Json) {
    && Truthy(Some(conv))
    && Truthy(Member(conv, "image_url"))
    && Truthy(Member(conv, "key_phrases")) && IsNonEmptyArray(Member(conv, "key_phrases"))
    && Truthy(Member(conv, "summary"))
    && Truthy(Member(conv, "conversation")) && IsNonEmptyArray(Member(conv, "conversation"))
  }

  /**
   * The validator accepts exactly the objects whose `image_url` and `summary`
   * are truthy and whose `key_phrases` and `conversation` are non-empty arrays.
   */
  lemma ValidConversationShape(conv: Json)
    ensures IsValidConversation(conv) <==>
      && conv.JObj?
      && Truthy(Member(conv, "image_url"))
      && Truthy(Member(conv, "summary"))
      && IsNonEmptyArray(Member(conv, "key_phrases"))
      && IsNonEmptyArray(Member(conv, "conversation"))
  {
  }

  /** Validation is shallow: replacing the two arrays by any other non-empty arrays keeps a record valid. */
  lemma ValidationIgnoresElements(conv: Json, phrases: seq<Json>, turns: seq<Json>)
    requires IsValidConversation(conv)
    requires |phrases| > 0 && |turns| > 0
    ensures IsValidConversation(JObj(conv.members["key_phrases" := JArr(phrases)]["conversation" := JArr(turns)]))
  {
    var m := conv.members["key_phrases" := JArr(phrases)]["conversation" := JArr(turns)];
    assert Member(JObj(m), "image_url") == Member(conv, "image_url");
    assert Member(JObj(m), "summary") == Member(conv, "summary");
  }

  // ===========================================================================
  // Normalisation of one entry

  const TimestampMember: string := "timestamp"
  const FirebaseKeyMember: string := "firebaseKey"

  /** The stored `timestamp`, when it is a number. */
  function StoredTimestamp(value: Json): Option<int> {
    match Member(value, TimestampMember)
    case Some(JNum(n)) => Some(n)
    case _ => None
  }

  /**
   * `value.timestamp || decodeFirebaseKey(key) || Date.now()`: the stored
   * timestamp unless it is absent or 0, else the decoded key unless it is 0,
   * else the clock.
   */
  function ResolvedTimestamp(value: Json, key: string, now: int): (t: int)
    ensures t == 0 ==> now == 0
    ensures t == now || t == DecodedKey(key) || Some(t) == StoredTimestamp(value)
  {
    var stored := StoredTimestamp(value);
    if stored.Some? && stored.value != 0 then stored.value
    else if DecodedKey(key) != 0 then DecodedKey(key)
    else now
  }

  /** A record stored without a timestamp under a push ID gets the creation time encoded in the ID. */
  lemma TimestampFromPushKey(value: Json, t: nat, rest: string, now: int)
    requires StoredTimestamp(value).None? || StoredTimestamp(value) == Some(0)
    requires 0 < t < Pow64(SignificantLength)
    ensures ResolvedTimestamp(value, EncodePushTime(t, SignificantLength) + rest, now) == t
  {
    PushKeyRoundTrip(t, rest);
  }

  /**
   * Without a usable stored timestamp, the decoded key is used unless it is 0,
   * which happens exactly when every significant character is `-`; then the clock.
   */
  lemma ResolvedWithoutStored(value: Json, key: string, now: int)
    requires StoredTimestamp(value).None? || StoredTimestamp(value) == Some(0)
    ensures ResolvedTimestamp(value, key, now)
         == if forall i :: 0 <= i < Min(SignificantLength, |key|) ==> key[i] == '-' then now else DecodedKey(key)
  {
    DecodeZero(key);
  }

  /** A stored non-zero timestamp always wins, whatever the key and the clock say. */
  lemma StoredTimestampWins(value: Json, key: string, now: int, n: int)
    requires Member(value, TimestampMember) == Some(JNum(n)) && n != 0
    ensures ResolvedTimestamp(value, key, now) == n
  {
  }

  /**
   * A normalised conversation: the stored members other than `timestamp`
   * and `firebaseKey`, the resolved timestamp, and the key it was stored under.
   */
  datatype Conversation = Conversation(payload: map<string, Json>, timestamp: int, firebaseKey: string)

  /** The object the source builds for a conversation. */
  function AsObject(c: Conversation): map<string, Json> {
    c.payload[TimestampMember := JNum(c.timestamp)][FirebaseKeyMember := JStr(c.firebaseKey)]
  }

  /** `{ ...value, timestamp, firebaseKey: key }` for one valid entry. */
  function Normalized(key: string, value: Json, now: int): (c: Conversation)
    requires value.JObj?
    ensures c.firebaseKey == key
    ensures TimestampMember !in c.payload && FirebaseKeyMember !in c.payload
  {
    Conversation(value.members - {TimestampMember, FirebaseKeyMember}, ResolvedTimestamp(value, key, now), key)
  }

  /** The normalised object is the stored one with `timestamp` and `firebaseKey` set, every other member copied unchanged. */
  lemma NormalizedIsSpread(key: string, value: Json, now: int)
    requires value.JObj?
    ensures AsObject(Normalized(key, value, now))
         == value.members[TimestampMember := JNum(ResolvedTimestamp(value, key, now))][FirebaseKeyMember := JStr(key)]
    ensures forall m :: m in value.members && m != TimestampMember && m != FirebaseKeyMember ==>
         m in AsObject(Normalized(key, value, now)) && AsObject(Normalized(key, value, now))[m] == value.members[m]
  {
  }

  // ===========================================================================
  // The pipeline

  ghost predicate DistinctKeys(entries: seq<(string, Json)>) {
    forall i, j :: 0 <= i < j < |entries| ==> entries[i].0 != entries[j].0
  }

  /** `Object.entries(data)`: keys are unique within one document. */
  type Entries = entries: seq<(string, Json)> | DistinctKeys(entries) witness []

  /** The valid entries, normalised, in the order of `entries` (the `forEach` of the source). */
  function Collected(entries: seq<(string, Json)>, now: int): (r: seq<Conversation>)
    ensures |r| <= |entries|
  {
    if entries == [] then []
    else
      var (key, value) := entries[0];
      (if IsValidConversation(value) then [Normalized(key, value, now)] else []) + Collected(entries[1..], now)
  }

  /** One turn of the forEach, on the specification side. */
  lemma CollectStep(entries: seq<(string, Json)>, i: nat, now: int)
    requires i < |entries|
    ensures Collected(entries[i..], now)
         == (if IsValidConversation(entries[i].1) then [Normalized(entries[i].0, entries[i].1, now)] else [])
            + Collected(entries[i + 1..], now)
  {
    assert entries[i..][0] == entries[i] && entries[i..][1..] == entries[i + 1..];
  }

  /** The forEach over `Object.entries(data)` that pushes each valid entry, normalised. */
  method CollectValid(entries: seq<(string, Json)>, now: int) returns (conversations: seq<Conversation>)
    ensures conversations == Collected(entries, now)
  {
    conversations := [];
    for i := 0 to |entries|
      invariant conversations + Collected(entries[i..], now) == Collected(entries, now)
    {
      CollectStep(entries, i, now);
      var (key, value) := entries[i];
      if IsValidConversation(value) {
        var timestamp: int;
        var stored := StoredTimestamp(value);
        if stored.Some? && stored.value != 0 {
          timestamp := stored.value;
        } else {
          var decoded := DecodeFirebaseKey(key);
          timestamp := if decoded != 0 then decoded else now;
        }
        var conversation := Conversation(value.members - {TimestampMember, FirebaseKeyMember}, timestamp, key);
        assert conversation == Normalized(key, value, now);
        Associative(conversations, [conversation], Collected(entries[i + 1..], now));
        conversations := conversations + [conversation];
      } else {
        assert [] + Collected(entries[i + 1..], now) == Collected(entries[i + 1..], now);
      }
    }
    assert entries[|entries|..] == [];
    assert conversations + [] == conversations;
  }

  /** The output holds exactly one normalised conversation per valid entry, and nothing else. */
  /** `c` is what the forEach pushes for entry `e`. */
  predicate FromEntry(e: (string, Json), now: int, c: Conversation) {
    IsValidConversation(e.1) && c == Normalized(e.0, e.1, now)
  }

  lemma {:induction false} CollectedExactly(entries: seq<(string, Json)>, now: int, c: Conversation)
    ensures c in Collected(entries, now) <==> exists i :: 0 <= i < |entries| && FromEntry(entries[i], now, c)
  {
    if entries != [] {
      var tail := entries[1..];
      CollectedExactly(tail, now, c);
      assert c in Collected(entries, now) <==> FromEntry(entries[0], now, c) || c in Collected(tail, now);
      if c in Collected(tail, now) {
        var i :| 0 <= i < |tail| && FromEntry(tail[i], now, c);
        assert entries[i + 1] == tail[i];
      }
      if exists i :: 0 <= i < |entries| && FromEntry(entries[i], now, c) {
        var i :| 0 <= i < |entries| && FromEntry(entries[i], now, c);
        if i > 0 {
          assert tail[i - 1] == entries[i];
        }
      }
    }
  }

  /** Every conversation in the output carries the key of an entry. */
  lemma {:induction false} CollectedKeysFromEntries(entries: seq<(string, Json)>, now: int, c: Conversation)
    requires c in Collected(entries, now)
    ensures exists i :: 0 <= i < |entries| && entries[i].0 == c.firebaseKey
  {
    CollectedExactly(entries, now, c);
  }

  /** With unique keys in the document, no two conversations in the output share a `firebaseKey`. */
  lemma {:induction false} CollectedOnePerKey(entries: seq<(string, Json)>, now: int)
    requires DistinctKeys(entries)
    ensures forall i, j :: 0 <= i < j < |Collected(entries, now)| ==>
      Collected(entries, now)[i].firebaseKey != Collected(entries, now)[j].firebaseKey
  {
    if entries != [] {
      var tail := entries[1..];
      assert DistinctKeys(tail) by {
        forall i, j | 0 <= i < j < |tail| ensures tail[i].0 != tail[j].0 {
          assert tail[i] == entries[i + 1] && tail[j] == entries[j + 1];
        }
      }
      CollectedOnePerKey(tail, now);
      var rest := Collected(tail, now);
      forall c | c in rest ensures c.firebaseKey != entries[0].0 {
        CollectedKeysFromEntries(tail, now, c);
        var i :| 0 <= i < |tail| && tail[i].0 == c.firebaseKey;
        assert tail[i] == entries[i + 1];
      }
      var r := Collected(entries, now);
      if IsValidConversation(entries[0].1) {
        forall i, j | 0 <= i < j < |r| ensures r[i].firebaseKey != r[j].firebaseKey {
          assert r[j] == rest[j - 1] && rest[j - 1] in rest;
          if i > 0 { assert r[i] == rest[i - 1]; }
        }
      }
    }
  }

  /** What `JSON.parse(text)` produced. `Document` holds `Object.entries(data)`, which is empty for a falsy `data`. */
  datatype JsonParse = SyntaxError | Document(entries: Entries)

  /** What the request produced, up to the body text and its parse. */
  datatype FetchOutcome =
    | HttpNotOk                                // `response.ok` was false
    | TransportFailure(message: string)        // `fetch` or `response.text()` rejected with an Error carrying `message`
    | Received(text: string, parse: JsonParse) // the body text and what `JSON.parse` makes of it

  /** The result of one retrieval: its conversations and the message left in `error`. */
  datatype Retrieval = Retrieval(conversations: seq<Conversation>, error: Option<string>)

  const FetchFailedMessage: string := "Failed to fetch conversations"
  const InvalidResponseMessage: string := "Invalid response from server"

  /** The comparator `(a, b) => b.timestamp - a.timestamp` as an ascending key. */
  function NewestFirstKey(c: Conversation): int { -c.timestamp }

  ghost predicate NewestFirst(conversations: seq<Conversation>) {
    forall i, j :: 0 <= i < j < |conversations| ==> conversations[i].timestamp >= conversations[j].timestamp
  }

  /** The conversations sorted newest first. */
  function SortedNewestFirst(conversations: seq<Conversation>): (r: seq<Conversation>)
    ensures multiset(r) == multiset(conversations)
    ensures NewestFirst(r)
  {
    var sorted := Sorting.SortBy(conversations, NewestFirstKey);
    SortedByKeyIsNewestFirst(sorted);
    sorted
  }

  lemma SortedByKeyIsNewestFirst(conversations: seq<Conversation>)
    requires Sorting.SortedBy(conversations, NewestFirstKey)
    ensures NewestFirst(conversations)
  {
    forall i, j | 0 <= i < j < |conversations|
      ensures conversations[i].timestamp >= conversations[j].timestamp
    {
      assert NewestFirstKey(conversations[i]) <= NewestFirstKey(conversations[j]);
    }
  }

  /** Conversations with equal timestamps keep the order in which the document listed them. */
  lemma SortedNewestFirstStable(conversations: seq<Conversation>, key: int)
    ensures Sorting.WithKey(SortedNewestFirst(conversations), NewestFirstKey, key)
         == Sorting.WithKey(conversations, NewestFirstKey, key)
  {
    Sorting.SortByStable(conversations, NewestFirstKey, key);
  }

  /** What fetchAllConversations returns and leaves in `error`, for a given outcome and clock reading. */
  function Retrieve(outcome: FetchOutcome, now: int): (r: Retrieval)
    ensures r.error.Some? ==> r.conversations == []
    ensures NewestFirst(r.conversations)
  {
    match outcome
    case HttpNotOk => Retrieval([], Some(FetchFailedMessage))
    case TransportFailure(message) => Retrieval([], Some(message))
    case Received(text, parse) =>
      if text == [] || Trim(text) == [] then Retrieval([], None)
      else
        match parse
        case SyntaxError => Retrieval([], Some(InvalidResponseMessage))
        case Document(entries) => Retrieval(SortedNewestFirst(Collected(entries, now)), None)
  }

  /** The error paths: each degrades to an empty list; only a blank body leaves `error` unset. */
  lemma RetrieveErrorPaths(outcome: FetchOutcome, now: int)
    ensures outcome.HttpNotOk? ==> Retrieve(outcome, now) == Retrieval([], Some(FetchFailedMessage))
    ensures outcome.TransportFailure? ==> Retrieve(outcome, now) == Retrieval([], Some(outcome.message))
    ensures outcome.Received? && AllSpace(outcome.text) ==> Retrieve(outcome, now) == Retrieval([], None)
    ensures outcome.Received? && !AllSpace(outcome.text) && outcome.parse.SyntaxError? ==>
      Retrieve(outcome, now) == Retrieval([], Some(InvalidResponseMessage))
  {
    if outcome.Received? {
      TrimEmpty(outcome.text);
    }
  }

  ghost predicate DistinctFirebaseKeys(conversations: seq<Conversation>) {
    forall i, j :: 0 <= i < j < |conversations| ==> conversations[i].firebaseKey != conversations[j].firebaseKey
  }

  /**
   * A parsed document yields, with no error, a permutation of its valid
   * entries' normalised records, newest first, one per key.
   */
  lemma RetrieveDocument(text: string, entries: Entries, now: int)
    requires !AllSpace(text)
    ensures var r := Retrieve(Received(text, Document(entries)), now);
      && r.error == None
      && r.conversations == SortedNewestFirst(Collected(entries, now))
      && multiset(r.conversations) == multiset(Collected(entries, now))
      && NewestFirst(r.conversations)
      && DistinctFirebaseKeys(r.conversations)
  {
    RetrieveParsed(text, entries, now);
    CollectedOnePerKey(entries, now);
    PermutationKeepsDistinctKeys(Collected(entries, now), SortedNewestFirst(Collected(entries, now)));
  }

  /** A body that is not blank and parses goes down the success path. */
  lemma RetrieveParsed(text: string, entries: Entries, now: int)
    requires !AllSpace(text)
    ensures Retrieve(Received(text, Document(entries)), now) == Retrieval(SortedNewestFirst(Collected(entries, now)), None)
  {
    NotBlank(text);
  }

  lemma NotBlank(text: string)
    requires !AllSpace(text)
    ensures text != [] && Trim(text) != []
  {
    TrimEmpty(text);
  }

  /** Reordering a list whose keys are distinct leaves them distinct. */
  lemma PermutationKeepsDistinctKeys(a: seq<Conversation>, b: seq<Conversation>)
    requires multiset(a) == multiset(b) && DistinctFirebaseKeys(a)
    ensures DistinctFirebaseKeys(b)
  {
    forall i, j | 0 <= i < j < |b| ensures b[i].firebaseKey != b[j].firebaseKey {
      if b[i] == b[j] {
        DuplicateIn(b, i, j);
        AtMostOnce(a, b[i]);
      } else {
        assert b[i] in multiset(a) && b[j] in multiset(a);
        var i' :| 0 <= i' < |a| && a[i'] == b[i];
        var j' :| 0 <= j' < |a| && a[j'] == b[j];
        assert i' != j';
      }
    }
  }

  /** Two positions holding the same value make its multiplicity at least two. */
  lemma DuplicateIn(s: seq<Conversation>, i: nat, j: nat)
    requires i < j < |s| && s[i] == s[j]
    ensures multiset(s)[s[i]] >= 2
  {
    var x := s[i];
    assert s == s[..i] + [x] + s[i + 1..j] + [x] + s[j + 1..];
    assert multiset(s) == multiset(s[..i]) + multiset{x} + multiset(s[i + 1..j]) + multiset{x} + multiset(s[j + 1..]);
  }

  /** In a list whose keys are distinct, each value occurs at most once. */
  lemma {:induction false} AtMostOnce(c: seq<Conversation>, x: Conversation)
    requires DistinctFirebaseKeys(c)
    ensures multiset(c)[x] <= 1
  {
    if c != [] {
      var tail := c[1..];
      assert c == [c[0]] + tail;
      assert DistinctFirebaseKeys(tail) by {
        forall i, j | 0 <= i < j < |tail| ensures tail[i].firebaseKey != tail[j].firebaseKey {
          assert tail[i] == c[i + 1] && tail[j] == c[j + 1];
        }
      }
      AtMostOnce(tail, x);
      if c[0] == x {
        forall k | 0 <= k < |tail| ensures tail[k] != x {
          assert tail[k] == c[k + 1];
        }
      }
    }
  }

  // ===========================================================================
  // Selectors

  /** getLatestConversation on a retrieved list: its first element, or null. */
  function Latest(conversations: seq<Conversation>): (r: Option<Conversation>)
    ensures r.None? <==> conversations == []
    ensures r.Some? ==> r.value == conversations[0]
  {
    if |conversations| > 0 then Some(conversations[0]) else None
  }

  /** getPreviousConversations on a retrieved list: `conversations.slice(1, limit + 1)`. */
  function Previous(conversations: seq<Conversation>, limit: int): (r: seq<Conversation>)
    ensures |r| <= Max(|conversations| - 1, 0)
    ensures forall i :: 0 <= i < |r| ==> r[i] == conversations[i + 1]
  {
    Slice(conversations, 1, limit + 1)
  }

  /** On a list sorted newest first, the latest conversation is at least as new as every other. */
  lemma LatestIsNewest(conversations: seq<Conversation>)
    requires NewestFirst(conversations) && conversations != []
    ensures forall c :: c in conversations ==> Latest(conversations).value.timestamp >= c.timestamp
  {
    forall c | c in conversations ensures conversations[0].timestamp >= c.timestamp {
      var k :| 0 <= k < |conversations| && conversations[k] == c;
    }
  }

  /**
   * For a limit of -1 or more the page is the `limit` conversations after
   * the latest, or fewer when the list runs out; a limit of 0 or -1 gives
   * an empty page.
   */
  lemma PreviousWindow(conversations: seq<Conversation>, limit: int)
    requires limit >= -1
    ensures |Previous(conversations, limit)| == Max(0, Min(limit, |conversations| - 1))
    ensures |conversations| > 1 && limit > 0 ==>
      Previous(conversations, limit) == conversations[1..Min(limit + 1, |conversations|)]
    ensures limit <= 0 ==> Previous(conversations, limit) == []
  {
  }

  /**
   * A limit below -1 counts from the end of the list, as `slice` does: the
   * page runs from the second conversation up to `|conversations| + limit + 1`,
   * and is empty when that end is not past the first.
   */
  lemma PreviousNegativeLimit(conversations: seq<Conversation>, limit: int)
    requires limit < -1
    ensures Previous(conversations, limit)
         == if |conversations| + limit + 1 > 1 then conversations[1..|conversations| + limit + 1] else []
  {
  }

  /** The latest conversation followed by a large enough page is the whole list. */
  lemma LatestAndPreviousCover(conversations: seq<Conversation>, limit: int)
    requires conversations != [] && limit >= |conversations| - 1
    ensures [Latest(conversations).value] + Previous(conversations, limit) == conversations
  {
    PreviousWindow(conversations, limit);
    if |conversations| == 1 {
      assert Previous(conversations, limit) == [];
    }
  }

  // ===========================================================================
  // The composable's state

  /**
   * The state returned by useFirebaseData: the `loading` flag and the last
   * error message. Each operation takes the outcome of its request and the
   * clock reading it would have taken.
   */
  class ConversationStore {
    var loading: bool
    var error: Option<string>

    constructor ()
      ensures !loading && error == None
    {
      loading := false;
      error := None;
    }

    /** fetchAllConversations. */
    method FetchAllConversations(outcome: FetchOutcome, now: int) returns (conversations: seq<Conversation>)
      modifies this
      ensures !loading
      ensures conversations == Retrieve(outcome, now).conversations
      ensures error == Retrieve(outcome, now).error
    {
      loading := true;
      error := None;
      match outcome {
        case HttpNotOk =>
          conversations := [];
          error := Some(FetchFailedMessage);
        case TransportFailure(message) =>
          conversations := [];
          error := Some(message);
        case Received(text, parse) =>
          if text == [] || Trim(text) == [] {
            conversations := [];
          } else {
            match parse {
              case SyntaxError =>
                conversations := [];
                error := Some(InvalidResponseMessage);
              case Document(entries) =>
                conversations := CollectValid(entries, now);
                conversations := SortedNewestFirst(conversations);
            }
          }
      }
      loading := false;
    }

    /** getLatestConversation. */
    method GetLatestConversation(outcome: FetchOutcome, now: int) returns (latest: Option<Conversation>)
      modifies this
      ensures !loading && error == Retrieve(outcome, now).error
      ensures latest == Latest(Retrieve(outcome, now).conversations)
    {
      var conversations := FetchAllConversations(outcome, now);
      latest := if |conversations| > 0 then Some(conversations[0]) else None;
    }

    /** getPreviousConversations, whose limit defaults to 6. */
    method GetPreviousConversations(outcome: FetchOutcome, now: int, limit: int := 6) returns (previous: seq<Conversation>)
      modifies this
      ensures !loading && error == Retrieve(outcome, now).error
      ensures previous == Previous(Retrieve(outcome, now).conversations, limit)
    {
      var conversations := FetchAllConversations(outcome, now);
      previous := Slice(conversations, 1, limit + 1);
    }
  }
}
