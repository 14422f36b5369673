/** Messages under symmetric keys and the control commands (e4symclient.c). AES under a key is an
  * argument, the clock and the file system's answers are inputs. */
module SymClient {
  import opened Bytes
  import opened AesSiv
  import opened SymStore

  const RESULT_OK_CONTROL := -1
  const ERROR_INVALID_TAG := -101
  const ERROR_TIMESTAMP_IN_FUTURE := -102
  const ERROR_TIMESTAMP_TOO_OLD := -103
  const ERROR_CIPHERTEXT_TOO_SHORT := -104
  const ERROR_INVALID_COMMAND := -107

  const TIMESTAMP_LEN := 8
  const MSGHDR_LEN := 24

  const TIME_FUTURE := 600
  const TIME_TOO_OLD := 600

  /** Clocks before the year 2000 count as not set. */
  const CLOCK_SET := 946684800

  /** The numbers that callers see. */
  lemma ResultCodes()
    ensures RESULT_OK == 0 && RESULT_OK_CONTROL == -1 && ERROR_INVALID_TAG == -101
    ensures ERROR_TIMESTAMP_IN_FUTURE == -102 && ERROR_TIMESTAMP_TOO_OLD == -103
    ensures ERROR_CIPHERTEXT_TOO_SHORT == -104 && ERROR_TOPICKEY_MISSING == -105
    ensures ERROR_INVALID_COMMAND == -107 && ERROR_PERSISTENCE_ERROR == -108
  {
  }

  type Aes = Key -> Cipher

  // ---- keys ----------------------------------------------------------------------------

  datatype KeyChoice = TopicKeyFound(key: Key) | ControlKey(key: Key) | NoKey

  /** Which key a topic uses. */
  ghost function ChooseKey(table: map<Hash, Key>, ctrltopic: Hash, idkey: Key, h: Hash): KeyChoice {
    if h in table then TopicKeyFound(table[h])
    else if h == ctrltopic then ControlKey(idkey)
    else NoKey
  }

  ghost function KeyOf(store: Store, h: Hash): KeyChoice
    requires store.Valid()
    reads store, store.topics
  {
    ChooseKey(store.Contents(), store.ctrltopic, store.key, h)
  }

  /** The lines that both functions use to look a key up. */
  method GetKey(store: Store, h: Hash) returns (choice: KeyChoice)
    requires store.Valid()
    ensures choice == KeyOf(store, h)
  {
    var i := store.GetTopicIndex(h);
    if i >= 0 {
      choice := TopicKeyFound(store.topics[i].key);
    } else if store.ctrltopic != h {
      choice := NoKey;
    } else {
      choice := ControlKey(store.key);
    }
  }

  // ---- protection ----------------------------------------------------------------------

  /** A protected message: the time, then the SIV encryption under it. */
  function Protected(e: Cipher, now: nat, message: seq<byte>): (c: seq<byte>)
    ensures |c| == |message| + MSGHDR_LEN
  {
    var stamp := ToLE(now, TIMESTAMP_LEN);
    stamp + Encrypt(e, stamp, message)
  }

  /** The loop that writes the time, low byte first. */
  method TimestampBytes(now: nat) returns (s: seq<byte>)
    ensures s == ToLE(now, TIMESTAMP_LEN)
  {
    hide ToLE;
    s := [];
    var time := now;
    for i := 0 to TIMESTAMP_LEN
      invariant time >= 0 && ToLE(now, TIMESTAMP_LEN) == s + ToLE(time, TIMESTAMP_LEN - i)
    {
      FirstByte(time, TIMESTAMP_LEN - i);
      ghost var rest := ToLE(time / 0x100, TIMESTAMP_LEN - i - 1);
      assert s + ([time % 0x100] + rest) == s + [time % 0x100] + rest;
      s := s + [time % 0x100];
      time := time / 0x100;
    }
    assert ToLE(time, 0) == [] && s + [] == s;
  }

  lemma FirstByte(x: nat, n: nat)
    requires n > 0
    ensures ToLE(x, n) == [x % 0x100] + ToLE(x / 0x100, n - 1)
  {
  }

  method ProtectMessage(store: Store, h: Hash, message: seq<byte>, cmax: nat, now: nat, aes: Aes) returns (r: int,
    cptr: seq<byte>)
    requires store.Valid()
    ensures |message| + MSGHDR_LEN > cmax ==> r == ERROR_CIPHERTEXT_TOO_SHORT
    ensures |message| + MSGHDR_LEN <= cmax && KeyOf(store, h).NoKey? ==> r == ERROR_TOPICKEY_MISSING
    ensures |message| + MSGHDR_LEN <= cmax && !KeyOf(store, h).NoKey? ==>
      r == RESULT_OK && cptr == Protected(aes(KeyOf(store, h).key), now, message)
  {
    hide Encrypt, ToLE;
    cptr := [];
    if |message| + MSGHDR_LEN > cmax {
      return ERROR_CIPHERTEXT_TOO_SHORT, [];
    }
    var choice := GetKey(store, h);
    if choice.NoKey? {
      return ERROR_TOPICKEY_MISSING, [];
    }
    cptr := TimestampBytes(now);
    var body, clen := Aes256EncryptSiv(cptr, message, aes(choice.key));
    cptr := cptr + body;
    r := RESULT_OK;
  }

  // ---- unprotection --------------------------------------------------------------------

  /** What is said of the time stamp. */
  function TimeVerdict(stamp: nat, now: nat, ignoreTimestamp: bool): int {
    if now < CLOCK_SET || ignoreTimestamp then RESULT_OK
    else if stamp >= now then (if stamp - now > TIME_FUTURE then ERROR_TIMESTAMP_IN_FUTURE else RESULT_OK)
    else (if now - stamp > TIME_TOO_OLD then ERROR_TIMESTAMP_TOO_OLD else RESULT_OK)
  }

  /** Which error stands for which side: a stamp more than 600 s ahead of a clock that is set is in the
    * future, one more than 600 s behind it is too old. */
  lemma TimeSides(stamp: nat, now: nat, ignoreTimestamp: bool)
    ensures var v := TimeVerdict(stamp, now, ignoreTimestamp); var checked := now >= 946684800 && !ignoreTimestamp;
      && (v == -102 <==> checked && stamp > now + 600)
      && (v == -103 <==> checked && stamp + 600 < now)
      && (v == 0 <==> !checked || (stamp <= now + 600 && now <= stamp + 600))
  {
  }

  function Stamp(cptr: seq<byte>): nat
    requires |cptr| >= MSGHDR_LEN
  {
    LE(cptr[..TIMESTAMP_LEN])
  }

  /** The plaintext that comes out of decryption, whatever the tag says. */
  function Plaintext(e: Cipher, cptr: seq<byte>): (m: seq<byte>)
    requires |cptr| >= MSGHDR_LEN
    ensures |m| == |cptr| - MSGHDR_LEN
  {
    Ctr(e, cptr[TIMESTAMP_LEN..MSGHDR_LEN], cptr[MSGHDR_LEN..])
  }

  /** The message is authentic: it is the protection of some plaintext at some time. */
  ghost predicate Authentic(e: Cipher, cptr: seq<byte>)
    requires |cptr| >= MSGHDR_LEN
  {
    cptr == Protected(e, Stamp(cptr), Plaintext(e, cptr))
  }

  /** The result up to the point where commands are carried out. */
  ghost function Verdict(e: Cipher, cptr: seq<byte>, now: nat, ignoreTimestamp: bool): int
    requires |cptr| >= MSGHDR_LEN
  {
    if !Authentic(e, cptr) then ERROR_INVALID_TAG else TimeVerdict(Stamp(cptr), now, ignoreTimestamp)
  }

  /** Which error comes first: the tag is checked before the time. */
  lemma VerdictCases(e: Cipher, cptr: seq<byte>, now: nat, ignoreTimestamp: bool)
    requires |cptr| >= MSGHDR_LEN
    ensures var v := Verdict(e, cptr, now, ignoreTimestamp); var stamp := Stamp(cptr);
      var checked := now >= 946684800 && !ignoreTimestamp;
      && (v == -101 <==> !Authentic(e, cptr))
      && (v == -102 <==> Authentic(e, cptr) && checked && stamp > now + 600)
      && (v == -103 <==> Authentic(e, cptr) && checked && stamp + 600 < now)
      && (v == 0 || v == -101 || v == -102 || v == -103)
  {
    hide Authentic, TimeVerdict, Stamp;
    TimeSides(Stamp(cptr), now, ignoreTimestamp);
  }

  method DecryptMessage(e: Cipher, cptr: seq<byte>, now: nat, ignoreTimestamp: bool) returns (r: int,
    message: seq<byte>)
    requires |cptr| >= MSGHDR_LEN
    ensures r == Verdict(e, cptr, now, ignoreTimestamp) && message == Plaintext(e, cptr)
  {
    hide Encrypt, LE, ToLE, Ctr;
    var stamp := 0;
    assert cptr[8..8] == [] && LE([]) == 0 by { EmptyLE(); }
    for j := 8 downto 0
      invariant stamp == LE(cptr[j..8])
    {
      assert cptr[j..8][1..] == cptr[j + 1..8];
      Head(cptr[j..8]);
      stamp := stamp * 0x100 + cptr[j] as int;
    }
    var ret, mlen;
    ret, message, mlen := Aes256DecryptSiv(cptr[..TIMESTAMP_LEN], cptr[TIMESTAMP_LEN..], e);
    assert cptr[TIMESTAMP_LEN..][..16] == cptr[TIMESTAMP_LEN..MSGHDR_LEN]
      && cptr[TIMESTAMP_LEN..][16..] == cptr[MSGHDR_LEN..];
    StampBytes(cptr);
    assert cptr == cptr[..TIMESTAMP_LEN] + cptr[TIMESTAMP_LEN..];
    if ret != 0 {
      return ERROR_INVALID_TAG, message;
    }
    r := TimeVerdict(stamp, now, ignoreTimestamp);
  }

  lemma Head(s: seq<byte>)
    requires |s| > 0
    ensures LE(s) == s[0] as int + 256 * LE(s[1..])
  {
  }

  lemma StampBytes(cptr: seq<byte>)
    requires |cptr| >= MSGHDR_LEN
    ensures ToLE(Stamp(cptr), TIMESTAMP_LEN) == cptr[..TIMESTAMP_LEN]
  {
    hide LE, ToLE, Pow2;
    LEBound(cptr[..TIMESTAMP_LEN]);
    ToLEValue(Stamp(cptr), TIMESTAMP_LEN);
    LEInjective(ToLE(Stamp(cptr), TIMESTAMP_LEN), cptr[..TIMESTAMP_LEN]);
  }

  /** Unprotecting what was protected gives the message back, and is accepted exactly within ten
    * minutes either way, unless the clock is not set or the time stamp is to be ignored. */
  lemma UnprotectProtected(e: Cipher, sent: nat, now: nat, ignoreTimestamp: bool, message: seq<byte>)
    requires sent < Pow2(64)
    ensures var c := Protected(e, sent, message);
      && Plaintext(e, c) == message && Stamp(c) == sent
      && (Verdict(e, c, now, ignoreTimestamp) == RESULT_OK <==>
          (now < CLOCK_SET || ignoreTimestamp || (sent <= now + 600 && now <= sent + 600)))
  {
    hide Encrypt, LE, ToLE, Ctr, Pow2;
    var c, stamp := Protected(e, sent, message), ToLE(sent, TIMESTAMP_LEN);
    assert c[..TIMESTAMP_LEN] == stamp && c[TIMESTAMP_LEN..] == Encrypt(e, stamp, message);
    ToLEValue(sent, TIMESTAMP_LEN);
    DecryptsEncryption(e, stamp, message);
    var t := c[TIMESTAMP_LEN..];
    assert t[..16] == c[TIMESTAMP_LEN..MSGHDR_LEN] && t[16..] == c[MSGHDR_LEN..];
  }

  // ---- control commands ----------------------------------------------------------------

  datatype Command = Remove(topic: Hash) | Reset | SetIdKey(key: Key) | SetTopicKey(topic: Hash, key: Key) | Invalid

  /** The command in a control message. RemoveTopic is the one command whose length is not checked:
    * a short one takes the rest of its topic from the bytes that follow in memory. */
  function Parse(m: seq<byte>, beyond: seq<byte>): Command
    requires |beyond| >= 16
  {
    if |m| == 0 then Invalid
    else if m[0] == 0 then Remove((m + beyond)[1..17])
    else if m[0] == 1 then (if |m| == 1 then Reset else Invalid)
    else if m[0] == 2 then (if |m| == 33 then SetIdKey(m[1..33]) else Invalid)
    else if m[0] == 3 then (if |m| == 49 then SetTopicKey(m[33..49], m[1..33]) else Invalid)
    else Invalid
  }

  /** The layout of the four commands. */
  lemma ParseLayout(h: Hash, k: Key, beyond: seq<byte>)
    requires |beyond| >= 16
    ensures Parse([0] + h, beyond) == Remove(h) && Parse([1], beyond) == Reset
    ensures Parse([2] + k, beyond) == SetIdKey(k) && Parse([3] + k + h, beyond) == SetTopicKey(h, k)
  {
    assert ([0] + h + beyond)[1..17] == h;
    assert ([2] + k)[1..33] == k;
    assert ([3] + k + h)[1..33] == k && ([3] + k + h)[33..49] == h;
  }

  /** Everything that is not a command: nothing, an unknown first byte, or a wrong length after 1, 2 or 3. */
  lemma ParseInvalid(m: seq<byte>, beyond: seq<byte>)
    requires |beyond| >= 16
    ensures Parse(m, beyond) == Invalid <==>
      || |m| == 0 || m[0] > 3
      || (m[0] == 1 && |m| != 1) || (m[0] == 2 && |m| != 33) || (m[0] == 3 && |m| != 49)
  {
  }

  /** What a control message does depends on the message alone, but for a RemoveTopic that is too short
    * for its topic. */
  lemma ParseIsLocal(m: seq<byte>)
    ensures (forall b, c :: |b| >= 16 && |c| >= 16 ==> Parse(m, b) == Parse(m, c)) <==>
      |m| == 0 || m[0] != 0 || |m| >= 17
  {
    if |m| >= 17 {
      forall b: seq<byte> ensures (m + b)[1..17] == m[1..17] {
      }
    }
    if 0 < |m| < 17 && m[0] == 0 {
      var b, c := Zeros(16), seq(16, _ => 1);
      assert (m + b)[1..17][15] == 0 && (m + c)[1..17][15] == 1;
      assert Parse(m, b) != Parse(m, c);
    }
  }

  /** The message of one zero byte removes whichever topic stands behind it in memory. */
  lemma ShortRemove(h: Hash)
    ensures Parse([0], h) == Remove(h)
  {
    assert ([0] + h)[1..17] == h;
  }

  /** The part of the store that commands act on. */
  datatype Model = Model(key: Key, table: map<Hash, Key>, configured: bool)

  /** Whether the entry that a command sets to zero, if any, lies in the array. */
  predicate Fits(a: Model, c: Command) {
    c.Remove? && c.topic in a.table ==> |a.table| < TOPICS_MAX
  }

  /** What a command does. A removal from a full table also clears the path of the file. */
  function Apply(a: Model, c: Command): Model {
    match c
    case Remove(h) => a.(table := a.table - {h}, configured := a.configured && Fits(a, c))
    case Reset => a.(table := map[])
    case SetIdKey(k) => a.(key := k)
    case SetTopicKey(h, k) => if h in a.table || |a.table| < TOPICS_MAX then a.(table := a.table[h := k]) else a
    case Invalid => a
  }

  /** Whether the system takes the whole of a store of n entries. */
  predicate Synced(io: IO, n: nat) { Takes(io, ENTRIES + 48 * n) }

  /** Whether a command ends in a sync: SetIdKey does not. */
  predicate Syncs(a: Model, c: Command) {
    match c
    case Remove(h) => h in a.table
    case Reset => true
    case SetTopicKey(h, k) => h in a.table || |a.table| < TOPICS_MAX
    case _ => false
  }

  /** The return code: what a command that changes the table reports is its sync. */
  function Outcome(a: Model, c: Command, io: IO): int {
    var b := Apply(a, c);
    var synced := b.configured && Synced(io, |b.table|);
    match c
    case Remove(h) =>
      if h !in a.table then ERROR_TOPICKEY_MISSING
      else if synced then RESULT_OK_CONTROL else ERROR_PERSISTENCE_ERROR
    case Reset => RESULT_OK_CONTROL
    case SetIdKey(k) => RESULT_OK_CONTROL
    case SetTopicKey(h, k) =>
      if h !in a.table && |a.table| >= TOPICS_MAX then ERROR_TOPICKEY_MISSING
      else if synced then RESULT_OK_CONTROL else ERROR_PERSISTENCE_ERROR
    case Invalid => ERROR_INVALID_COMMAND
  }

  ghost function ModelOf(store: Store): Model
    requires store.Valid()
    reads store, store.topics
  {
    Model(store.key, store.Contents(), store.configured)
  }

  lemma ModelSize(store: Store)
    requires store.Valid()
    ensures |ModelOf(store).table| == store.topiccount <= TOPICS_MAX
  {
    TableSize(store.topics[..store.topiccount]);
  }

  /** The switch on the first byte. */
  method Execute(store: Store, m: seq<byte>, beyond: seq<byte>, io: IO) returns (r: int)
    requires store.Valid() && |beyond| >= 16
    modifies store`key, store`topiccount, store`file, store`configured, store.topics
    ensures store.Valid() && ModelOf(store) == Apply(old(ModelOf(store)), Parse(m, beyond))
    ensures r == Outcome(old(ModelOf(store)), Parse(m, beyond), io)
    ensures Syncs(old(ModelOf(store)), Parse(m, beyond)) ==> exists code :: store.SyncedFrom(old(store.file), io, code)
    ensures !Syncs(old(ModelOf(store)), Parse(m, beyond)) ==>
      store.file == old(store.file) && store.topics[..store.topiccount] == old(store.topics[..store.topiccount])
  {
    hide Table, Distinct, Serialize, AfterSync;
    ModelSize(store);
    if |m| == 0 {
      return ERROR_INVALID_COMMAND;
    }
    if m[0] == 0 {
      var cleared;
      r, cleared := store.RemoveTopic((m + beyond)[1..17], io);
    } else if m[0] == 1 {
      if |m| != 1 {
        return ERROR_INVALID_COMMAND;
      }
      r := store.ResetTopics(io);
    } else if m[0] == 2 {
      if |m| != 33 {
        return ERROR_INVALID_COMMAND;
      }
      store.SetIdKey(m[1..33]);
      r := RESULT_OK;
    } else if m[0] == 3 {
      if |m| != 49 {
        return ERROR_INVALID_COMMAND;
      }
      r := store.SetTopicKey(m[33..49], m[1..33], io);
    } else {
      return ERROR_INVALID_COMMAND;
    }
    ModelSize(store);
    r := if r == RESULT_OK then RESULT_OK_CONTROL else r;
  }

  /** e4c_symkey_unprotect_message */
  method UnprotectMessage(store: Store, h: Hash, cptr: seq<byte>, mmax: nat, now: nat, ignoreTimestamp: bool,
                          beyond: seq<byte>, io: IO, aes: Aes) returns (r: int, message: seq<byte>)
    requires store.Valid() && |beyond| >= 16
    modifies store`key, store`topiccount, store`file, store`configured, store.topics
    ensures store.Valid()
    ensures |cptr| < MSGHDR_LEN || mmax < |cptr| - MSGHDR_LEN ==>
      r == ERROR_CIPHERTEXT_TOO_SHORT && ModelOf(store) == old(ModelOf(store))
    ensures |cptr| >= MSGHDR_LEN && mmax >= |cptr| - MSGHDR_LEN ==>
      (r, ModelOf(store)) == Unprotected(old(KeyOf(store, h)), old(ModelOf(store)), cptr, now, ignoreTimestamp, beyond,
        io, aes)
    ensures |cptr| >= MSGHDR_LEN && mmax >= |cptr| - MSGHDR_LEN && !old(KeyOf(store, h)).NoKey? ==>
      message == Plaintext(aes(old(KeyOf(store, h)).key), cptr)
    ensures old(WritesFile(store, h, cptr, mmax, now, ignoreTimestamp, beyond, aes)) ==>
      exists code :: store.SyncedFrom(old(store.file), io, code)
    ensures !old(WritesFile(store, h, cptr, mmax, now, ignoreTimestamp, beyond, aes)) ==>
      store.file == old(store.file) && store.topics[..store.topiccount] == old(store.topics[..store.topiccount])
  {
    hide Plaintext, Verdict, Parse, Apply, Outcome, Syncs;
    message := [];
    if |cptr| < MSGHDR_LEN || mmax < |cptr| - MSGHDR_LEN {
      return ERROR_CIPHERTEXT_TOO_SHORT, [];
    }
    var choice := GetKey(store, h);
    if choice.NoKey? {
      return ERROR_TOPICKEY_MISSING, [];
    }
    r, message := DecryptMessage(aes(choice.key), cptr, now, ignoreTimestamp);
    if r != RESULT_OK || choice.TopicKeyFound? {
      return;
    }
    r := Execute(store, message, beyond, io);
  }

  /** Whether a message makes the store write its file: it is on the control topic, authentic, timely,
    * and its command is one that ends in a sync. */
  ghost predicate WritesFile(store: Store, h: Hash, cptr: seq<byte>, mmax: nat, now: nat, ignoreTimestamp: bool,
                             beyond: seq<byte>, aes: Aes)
    requires store.Valid() && |beyond| >= 16
    reads store, store.topics
  {
    && |cptr| >= MSGHDR_LEN && mmax >= |cptr| - MSGHDR_LEN && KeyOf(store, h).ControlKey?
    && var e := aes(KeyOf(store, h).key);
      && Verdict(e, cptr, now, ignoreTimestamp) == RESULT_OK
      && Syncs(ModelOf(store), Parse(Plaintext(e, cptr), beyond))
  }

  /** The result and the new store: commands run only from authentic, timely messages on the
    * control topic. */
  ghost function Unprotected(choice: KeyChoice, a: Model, cptr: seq<byte>, now: nat, ignoreTimestamp: bool,
                             beyond: seq<byte>, io: IO, aes: Aes): (int, Model)
    requires |cptr| >= MSGHDR_LEN && |beyond| >= 16
  {
    if choice.NoKey? then (ERROR_TOPICKEY_MISSING, a)
    else
      var e := aes(choice.key);
      var v := Verdict(e, cptr, now, ignoreTimestamp);
      if v != RESULT_OK || choice.TopicKeyFound? then (v, a)
      else
        var c := Parse(Plaintext(e, cptr), beyond);
        (Outcome(a, c, io), Apply(a, c))
  }

  /** Nothing but an authentic and timely message under the device key changes the store, and the first
    * reason against a message is the one reported. */
  lemma OnlyAuthentic(choice: KeyChoice, a: Model, cptr: seq<byte>, now: nat, ignoreTimestamp: bool,
                      beyond: seq<byte>, io: IO, aes: Aes)
    requires |cptr| >= MSGHDR_LEN && |beyond| >= 16
    ensures var (r, b) := Unprotected(choice, a, cptr, now, ignoreTimestamp, beyond, io, aes);
      && (b != a ==>
           choice.ControlKey? && Authentic(aes(choice.key), cptr)
             && Verdict(aes(choice.key), cptr, now, ignoreTimestamp) == 0)
      && (choice.NoKey? ==> r == -105)
      && (!choice.NoKey? && Verdict(aes(choice.key), cptr, now, ignoreTimestamp) != 0 ==>
           r == Verdict(aes(choice.key), cptr, now, ignoreTimestamp))
      && (choice.TopicKeyFound? ==> r == Verdict(aes(choice.key), cptr, now, ignoreTimestamp))
  {
    hide Authentic, Verdict, Plaintext, Parse, Apply, Outcome;
    if !choice.NoKey? {
      VerdictCases(aes(choice.key), cptr, now, ignoreTimestamp);
    }
  }

  /** A control message that is no command is refused and changes nothing. */
  lemma InvalidIsRefused(a: Model, m: seq<byte>, beyond: seq<byte>, io: IO)
    requires |beyond| >= 16 && (|m| == 0 || m[0] > 3 || (m[0] == 1 && |m| != 1)
      || (m[0] == 2 && |m| != 33) || (m[0] == 3 && |m| != 49))
    ensures Apply(a, Parse(m, beyond)) == a && Outcome(a, Parse(m, beyond), io) == -107
  {
    ParseInvalid(m, beyond);
  }

  // ---- runs ----------------------------------------------------------------------------

  /** The model after a list of commands. */
  function ApplyAll(a: Model, cs: seq<Command>): Model {
    if cs == [] then a else Apply(ApplyAll(a, cs[..|cs| - 1]), cs[|cs| - 1])
  }

  /** No command of the list removes from a full table. */
  predicate FitsAll(a: Model, cs: seq<Command>) {
    forall n :: 0 <= n < |cs| ==> Fits(ApplyAll(a, cs[..n]), cs[n])
  }

  /** The path is lost in a run exactly when some command zeroes an entry past the array. */
  lemma {:induction false} PathKept(a: Model, cs: seq<Command>)
    ensures ApplyAll(a, cs).configured <==> a.configured && FitsAll(a, cs)
  {
    if cs == [] {
    } else {
      var front, last := cs[..|cs| - 1], cs[|cs| - 1];
      PathKept(a, front);
      FitsLast(a, cs);
      PathAfter(ApplyAll(a, front), last);
      hide Apply, Fits, FitsAll;
    }
  }

  lemma PathAfter(a: Model, c: Command)
    ensures Apply(a, c).configured == (a.configured && Fits(a, c))
  {
  }

  lemma FitsLast(a: Model, cs: seq<Command>)
    requires cs != []
    ensures var front, last := cs[..|cs| - 1], cs[|cs| - 1];
      FitsAll(a, cs) <==> FitsAll(a, front) && Fits(ApplyAll(a, front), last)
  {
    hide ApplyAll, Fits;
    var front := cs[..|cs| - 1];
    forall n | 0 <= n < |front|
      ensures front[..n] == cs[..n] && front[n] == cs[n]
    {
    }
    if FitsAll(a, front) && Fits(ApplyAll(a, front), cs[|cs| - 1]) {
      forall n | 0 <= n < |cs|
        ensures Fits(ApplyAll(a, cs[..n]), cs[n])
      {
        if n < |front| {
          assert Fits(ApplyAll(a, front[..n]), front[n]);
        }
      }
    }
    if FitsAll(a, cs) {
      assert Fits(ApplyAll(a, cs[..|front|]), cs[|front|]);
    }
  }

  /** Without a path no command that changes the table reports success, but for a reset. */
  lemma NothingSaved(a: Model, c: Command, io: IO)
    requires !a.configured && Syncs(a, c) && c != Reset
    ensures Outcome(a, c, io) == ERROR_PERSISTENCE_ERROR && !Apply(a, c).configured
  {
  }

  /** The table never outgrows the array. */
  lemma {:induction false} RunBounded(a: Model, cs: seq<Command>)
    requires |a.table| <= TOPICS_MAX
    ensures |ApplyAll(a, cs).table| <= TOPICS_MAX
  {
    if cs == [] {
    } else {
      RunBounded(a, cs[..|cs| - 1]);
      ApplyBounded(ApplyAll(a, cs[..|cs| - 1]), cs[|cs| - 1]);
    }
  }

  lemma ApplyBounded(a: Model, c: Command)
    requires |a.table| <= TOPICS_MAX
    ensures |Apply(a, c).table| <= TOPICS_MAX
  {
    if c.Remove? {
      Smaller(a.table, c.topic);
    } else if c.SetTopicKey? {
      assert a.table[c.topic := c.key].Keys == a.table.Keys + {c.topic};
    }
  }

  lemma Smaller(m: map<Hash, Key>, h: Hash)
    ensures |m - {h}| <= |m|
  {
    assert (m - {h}).Keys == m.Keys - {h};
  }

  function Topic(i: nat): (h: Hash)
    requires i < 256
    ensures h[0] == i
  {
    [i] + Zeros(15)
  }

  /** Commands that set the keys of n different topics. */
  function Sets(n: nat, k: Key): (cs: seq<Command>)
    requires n <= TOPICS_MAX
    ensures |cs| == n && forall i :: 0 <= i < n ==> cs[i] == SetTopicKey(Topic(i), k)
  {
    seq(n, i requires 0 <= i < n => SetTopicKey(Topic(i), k))
  }

  lemma {:induction false} Filled(a: Model, k: Key, n: nat)
    requires n <= TOPICS_MAX && a.table == map[]
    ensures var t := ApplyAll(a, Sets(n, k)).table;
      && |t| == n && (forall i :: 0 <= i < n ==> Topic(i) in t) && (forall i :: n <= i < 256 ==> Topic(i) !in t)
  {
    if n > 0 {
      Filled(a, k, n - 1);
      var cs, b := Sets(n, k), ApplyAll(a, Sets(n - 1, k));
      assert cs[..n - 1] == Sets(n - 1, k);
      assert b.table[Topic(n - 1) := k].Keys == b.table.Keys + {Topic(n - 1)};
    }
  }

  /** A table can be filled by 100 commands, and removing any of its topics then loses the path. */
  lemma FullTableLosesPath(a: Model, k: Key, i: nat)
    requires a.table == map[] && a.configured && i < TOPICS_MAX
    ensures var full := ApplyAll(a, Sets(TOPICS_MAX, k));
      && full.configured && |full.table| == TOPICS_MAX && Topic(i) in full.table
      && !Apply(full, Remove(Topic(i))).configured
  {
    Filled(a, k, TOPICS_MAX);
    PathKept(a, Sets(TOPICS_MAX, k));
  }

  // ---- the file ------------------------------------------------------------------------

  /** What load reads back from the file of a store. */
  datatype Snapshot = Snapshot(key: Key, table: map<Hash, Key>)

  ghost predicate Holds(file: seq<byte>, id: Hash, d: Snapshot) {
    exists s :: Distinct(s) && Table(s) == d.table && Saves(file, id, d.key, s)
  }

  /** The file holds the identity of the store, and this key and table. */
  ghost predicate OnFile(store: Store, d: Snapshot)
    reads store
  {
    Holds(store.file, store.id, d)
  }

  /** A restart would find what is in memory. */
  ghost predicate InStep(store: Store)
    requires store.Valid()
    reads store, store.topics
  {
    Saves(store.file, store.id, store.key, store.topics[..store.topiccount])
  }

  lemma InStepOnFile(store: Store)
    requires store.Valid() && InStep(store)
    ensures OnFile(store, Snapshot(store.key, store.Contents()))
  {
    hide Saves, Table;
    var s := store.topics[..store.topiccount];
    assert Distinct(s) && Table(s) == store.Contents();
  }

  /** A command that reports success and starts in step ends in step, unless it changes the key, or it
    * is a reset of a table with topics that the system does not take 53 bytes of. */
  predicate StaysInStep(a: Model, c: Command, io: IO) {
    match c
    case Reset => a.table == map[] || (a.configured && Takes(io, 53))
    case SetIdKey(k) => k == a.key
    case _ => true
  }

  /** The system takes all of the data, or nothing. */
  predicate AllOrNothing(io: IO, n: nat) { Synced(io, n) || !Takes(io, 1) }

  /** Whether a command leaves its result on file. */
  predicate Saved(a: Model, c: Command, io: IO) {
    var b := Apply(a, c);
    Syncs(a, c) && b.configured && Synced(io, |b.table|)
  }

  function SnapshotAfter(a: Model, c: Command, io: IO, d: Snapshot): Snapshot {
    if Saved(a, c, io) then Snapshot(Apply(a, c).key, Apply(a, c).table) else d
  }

  /** How a command takes the file and the live entries from was and s to now and t. */
  ghost predicate Wrote(a: Model, c: Command, io: IO, id: Hash, was: seq<byte>, s: seq<TopicKey>,
                        now: seq<byte>, t: seq<TopicKey>)
  {
    var b := Apply(a, c);
    && Distinct(s) && Distinct(t) && |s| <= TOPICS_MAX && |t| <= TOPICS_MAX
    && a.table == Table(s) && b.table == Table(t)
    && if Syncs(a, c) then now == if b.configured then AfterSync(was, Serialize(id, b.key, t), io) else was
       else now == was && t == s
  }

  lemma StepCases(a: Model, c: Command, io: IO, id: Hash, was: seq<byte>, s: seq<TopicKey>,
                  now: seq<byte>, t: seq<TopicKey>)
    requires Wrote(a, c, io, id, was, s, now, t) && Saves(was, id, a.key, s)
    requires Outcome(a, c, io) == RESULT_OK_CONTROL
    ensures Saves(now, id, Apply(a, c).key, t) <==> StaysInStep(a, c, io)
  {
    hide Saves, Serialize, AfterSync, Table, Distinct;
    TableSize(s);
    TableSize(t);
    if c.Reset? {
      assert t == [];
      if a.configured {
        ResetOnFile(was, id, a.key, s, io);
      } else if Saves(was, id, a.key, t) {
        SameTable(was, id, a.key, s, t);
      }
      assert a.table == map[] <==> |a.table| == 0;
    } else if c.SetIdKey? {
      KeyOnFile(was, id, a.key, c.key, s);
    } else {
      SyncSaves(was, id, a.key, t, io);
    }
  }

  lemma KeyOnFile(file: seq<byte>, id: Hash, key: Key, k: Key, s: seq<TopicKey>)
    requires Saves(file, id, key, s)
    ensures Saves(file, id, k, s) <==> k == key
  {
  }

  lemma SnapshotCases(a: Model, c: Command, io: IO, id: Hash, was: seq<byte>, s: seq<TopicKey>,
                      now: seq<byte>, t: seq<TopicKey>, d: Snapshot)
    requires Wrote(a, c, io, id, was, s, now, t) && Holds(was, id, d) && AllOrNothing(io, |Apply(a, c).table|)
    ensures Holds(now, id, SnapshotAfter(a, c, io, d))
  {
    hide Saves, Serialize, Table, Distinct, Apply;
    TableSize(t);
    if Saved(a, c, io) {
      SyncSaves(was, id, Apply(a, c).key, t, io);
    } else if Syncs(a, c) && io.Writes? {
      assert Overwrite(was, []) == was;
    }
  }

  /** One command, and what it leaves on file. */
  method ExecuteSaving(store: Store, m: seq<byte>, beyond: seq<byte>, io: IO, ghost d: Snapshot) returns (r: int)
    requires store.Valid() && |beyond| >= 16
    modifies store`key, store`topiccount, store`file, store`configured, store.topics
    ensures store.Valid() && ModelOf(store) == Apply(old(ModelOf(store)), Parse(m, beyond))
    ensures r == Outcome(old(ModelOf(store)), Parse(m, beyond), io)
    ensures old(InStep(store)) && r == RESULT_OK_CONTROL ==>
      (InStep(store) <==> StaysInStep(old(ModelOf(store)), Parse(m, beyond), io))
    ensures old(OnFile(store, d)) && AllOrNothing(io, |Apply(old(ModelOf(store)), Parse(m, beyond)).table|) ==>
      OnFile(store, SnapshotAfter(old(ModelOf(store)), Parse(m, beyond), io, d))
  {
    hide Parse, Apply, Outcome, Saves, Serialize, AfterSync, Table, Distinct, Syncs, Holds, SnapshotAfter, StaysInStep;
    ghost var was, s, a, c := store.file, store.topics[..store.topiccount], ModelOf(store), Parse(m, beyond);
    ghost var stepped, held := InStep(store), OnFile(store, d);
    r := Execute(store, m, beyond, io);
    ghost var t := store.topics[..store.topiccount];
    assert Wrote(a, c, io, store.id, was, s, store.file, t);
    if stepped && r == RESULT_OK_CONTROL {
      StepCases(a, c, io, store.id, was, s, store.file, t);
    }
    if held && AllOrNothing(io, |Apply(a, c).table|) {
      SnapshotCases(a, c, io, store.id, was, s, store.file, t, d);
    }
  }

  /** What the file holds after a run: the state after the last command that was saved. */
  function SnapshotAll(a: Model, cs: seq<Command>, ios: seq<IO>, d: Snapshot): Snapshot
    requires |cs| == |ios|
  {
    var n := |cs| - 1;
    if cs == [] then d else SnapshotAfter(ApplyAll(a, cs[..n]), cs[n], ios[n], SnapshotAll(a, cs[..n], ios[..n], d))
  }

  /** The commands after the last one that was saved. */
  function Unsaved(a: Model, cs: seq<Command>, ios: seq<IO>): seq<Command>
    requires |cs| == |ios|
  {
    var n := |cs| - 1;
    if cs == [] then []
    else if Saved(ApplyAll(a, cs[..n]), cs[n], ios[n]) then []
    else Unsaved(a, cs[..n], ios[..n]) + [cs[n]]
  }

  /** What is in memory after a run is what the file holds with the unsaved commands on top: exactly
    * their effect is lost in a restart. */
  lemma {:induction false} UnsavedIsLost(a: Model, cs: seq<Command>, ios: seq<IO>, configured: bool)
    requires |cs| == |ios|
    ensures var d := SnapshotAll(a, cs, ios, Snapshot(a.key, a.table));
      var b, m := ApplyAll(Model(d.key, d.table, configured), Unsaved(a, cs, ios)), ApplyAll(a, cs);
      b.key == m.key && b.table == m.table
  {
    if cs == [] {
    } else {
      var n := |cs| - 1;
      UnsavedIsLost(a, cs[..n], ios[..n], configured);
      hide Apply, Saved;
      var d, front := SnapshotAll(a, cs[..n], ios[..n], Snapshot(a.key, a.table)), Unsaved(a, cs[..n], ios[..n]);
      if !Saved(ApplyAll(a, cs[..n]), cs[n], ios[n]) {
        ApplyLast(Model(d.key, d.table, configured), front, cs[n]);
        ApplyAlike(ApplyAll(Model(d.key, d.table, configured), front), ApplyAll(a, cs[..n]), cs[n]);
      }
    }
  }

  lemma ApplyLast(a: Model, cs: seq<Command>, c: Command)
    ensures ApplyAll(a, cs + [c]) == Apply(ApplyAll(a, cs), c)
  {
    assert (cs + [c])[..|cs|] == cs;
  }

  lemma ApplyAlike(a: Model, b: Model, c: Command)
    requires a.key == b.key && a.table == b.table
    ensures Apply(a, c).key == Apply(b, c).key && Apply(a, c).table == Apply(b, c).table
  {
  }

  /** The key that the last SetIdKey of the list sets, or k when there is none. */
  function LastKey(cs: seq<Command>, k: Key): Key {
    if cs == [] then k
    else if cs[|cs| - 1].SetIdKey? then cs[|cs| - 1].key
    else LastKey(cs[..|cs| - 1], k)
  }

  /** Only SetIdKey changes the key. */
  lemma {:induction false} KeyInMemory(a: Model, cs: seq<Command>)
    ensures ApplyAll(a, cs).key == LastKey(cs, a.key)
  {
    if cs == [] {
    } else {
      KeyInMemory(a, cs[..|cs| - 1]);
    }
  }

  /** Each answer of the system takes all or nothing of what its command writes. */
  ghost predicate AllWhole(a: Model, cs: seq<Command>, ios: seq<IO>)
    requires |cs| == |ios|
  {
    forall i {:trigger ios[i]} :: 0 <= i < |cs| ==> AllOrNothing(ios[i], |ApplyAll(a, cs[..i + 1]).table|)
  }

  /** Any run of control commands, from any valid store: the array keeps refining the map, and while
    * no write is cut in the middle, the file holds the state of the last command that was saved. */
  method ExecuteAll(store: Store, ms: seq<seq<byte>>, beyonds: seq<seq<byte>>, ios: seq<IO>, ghost d: Snapshot)
    requires store.Valid() && |beyonds| == |ios| == |ms| && forall i :: 0 <= i < |ms| ==> |beyonds[i]| >= 16
    modifies store`key, store`topiccount, store`file, store`configured, store.topics
    ensures store.Valid() && ModelOf(store) == ApplyAll(old(ModelOf(store)), Commands(ms, beyonds))
    ensures old(OnFile(store, d)) && AllWhole(old(ModelOf(store)), Commands(ms, beyonds), ios) ==>
      OnFile(store, SnapshotAll(old(ModelOf(store)), Commands(ms, beyonds), ios, d))
  {
    ghost var a, cs := ModelOf(store), Commands(ms, beyonds);
    ghost var kept := OnFile(store, d) && AllWhole(a, cs, ios);
    NoCommands(a, cs, ios, d);
    assert cs[..|ms|] == cs && ios[..|ms|] == ios;
    hide Parse, Apply, ApplyAll, Outcome, OnFile, Syncs, SnapshotAll, SnapshotAfter, AllOrNothing, Table, Distinct,
      InStep, StaysInStep;
    for i := 0 to |ms|
      invariant store.Valid() && ModelOf(store) == ApplyAll(a, cs[..i])
      invariant kept ==> OnFile(store, SnapshotAll(a, cs[..i], ios[..i], d))
    {
      NextCommand(a, cs, ios, d, i);
      var r := ExecuteSaving(store, ms[i], beyonds[i], ios[i], SnapshotAll(a, cs[..i], ios[..i], d));
    }
  }

  lemma NoCommands(a: Model, cs: seq<Command>, ios: seq<IO>, d: Snapshot)
    ensures ApplyAll(a, cs[..0]) == a && SnapshotAll(a, cs[..0], ios[..0], d) == d
  {
  }

  lemma NextCommand(a: Model, cs: seq<Command>, ios: seq<IO>, d: Snapshot, i: nat)
    requires i < |cs| == |ios|
    ensures var b, e := ApplyAll(a, cs[..i]), SnapshotAll(a, cs[..i], ios[..i], d);
      && ApplyAll(a, cs[..i + 1]) == Apply(b, cs[i])
      && SnapshotAll(a, cs[..i + 1], ios[..i + 1], d) == SnapshotAfter(b, cs[i], ios[i], e)
  {
    assert cs[..i + 1][..i] == cs[..i] && ios[..i + 1][..i] == ios[..i];
  }

  /** A restart after a run: another store that loads the file has what was last saved. It has the key
    * in memory exactly when no other key was set since. */
  method RestartAfterRun(store: Store, other: Store, ms: seq<seq<byte>>, beyonds: seq<seq<byte>>, ios: seq<IO>)
    returns (l: int)
    requires store.Valid() && |beyonds| == |ios| == |ms| && forall i :: 0 <= i < |ms| ==> |beyonds[i]| >= 16
    requires InStep(store) && AllWhole(ModelOf(store), Commands(ms, beyonds), ios)
    requires other.topics.Length == TOPICS_MAX && store != other && store.topics != other.topics
    modifies store`key, store`topiccount, store`file, store`configured, store.topics, other, other.topics
    ensures l == RESULT_OK && store.Valid() && other.Valid() && other.id == store.id
    ensures var a, cs := old(ModelOf(store)), Commands(ms, beyonds);
      && ModelOf(store) == ApplyAll(a, cs)
      && Snapshot(other.key, other.Contents()) == SnapshotAll(a, cs, ios, Snapshot(a.key, a.table))
      && (other.key == store.key <==> LastKey(Unsaved(a, cs, ios), other.key) == other.key)
  {
    ghost var a, cs := ModelOf(store), Commands(ms, beyonds);
    ghost var d := SnapshotAll(a, cs, ios, Snapshot(a.key, a.table));
    InStepOnFile(store);
    ExecuteAll(store, ms, beyonds, ios, Snapshot(a.key, a.table));
    UnsavedIsLost(a, cs, ios, true);
    KeyInMemory(Model(d.key, d.table, true), Unsaved(a, cs, ios));
    hide ApplyAll, SnapshotAll, Unsaved, LastKey, Apply, Parse, Commands, AllWhole;
    l := LoadSnapshot(other, store.file, store.id, d);
  }

  /** e4c_symkey_load of a file that holds a snapshot. */
  method LoadSnapshot(other: Store, file: seq<byte>, ghost id: Hash, ghost d: Snapshot) returns (l: int)
    requires other.topics.Length == TOPICS_MAX && Holds(file, id, d)
    modifies other, other.topics
    ensures l == RESULT_OK && other.Valid() && other.id == id && other.key == d.key && other.Contents() == d.table
  {
    hide Entries, Table, Distinct;
    l := other.Load(file);
  }

  /** A reset always reports success. It lasts over a restart exactly when the table was empty or the
    * system takes 53 bytes at a path that is still there; otherwise all topics are back. */
  method RestartAfterReset(store: Store, other: Store, beyond: seq<byte>, io: IO) returns (r: int, l: int)
    requires store.Valid() && InStep(store) && |beyond| >= 16
    requires other.topics.Length == TOPICS_MAX && store != other && store.topics != other.topics
    modifies store`key, store`topiccount, store`file, store`configured, store.topics, other, other.topics
    ensures r == RESULT_OK_CONTROL && store.Valid() && store.Contents() == map[]
    ensures l == RESULT_OK && other.Valid() && other.id == store.id && other.key == store.key
    ensures other.Contents() == if old(store.configured) && Takes(io, 53) then map[] else old(store.Contents())
  {
    hide Table, Distinct, Saves, Serialize, AfterSync;
    ghost var was, s := store.file, store.topics[..store.topiccount];
    r := Execute(store, [1], beyond, io);
    ghost var now, t := store.file, store.topics[..store.topiccount];
    ghost var d := Snapshot(store.key, if store.configured && Takes(io, 53) then map[] else Table(s));
    ModelSize(store);
    assert t == [];
    ResetOnFile(was, store.id, store.key, s, io);
    assert Holds(now, store.id, d);
    l := LoadSnapshot(other, store.file, store.id, d);
  }

  ghost function Commands(ms: seq<seq<byte>>, beyonds: seq<seq<byte>>): (cs: seq<Command>)
    requires |beyonds| == |ms| && forall i :: 0 <= i < |ms| ==> |beyonds[i]| >= 16
    ensures |cs| == |ms| && forall i :: 0 <= i < |ms| ==> cs[i] == Parse(ms[i], beyonds[i])
  {
    seq(|ms|, i requires 0 <= i < |ms| => Parse(ms[i], beyonds[i]))
  }
}
