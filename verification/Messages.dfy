/** Messages from one store to another: what one side protects and the other one unprotects. */
module Messages {
  import opened Bytes
  import opened AesSiv
  import Rfc5297
  import opened SymStore
  import opened SymClient

  /** The bytes of a protected message: the time in eight bytes, the lowest first, then the encryption of
    * RFC 5297 with these as its associated string. */
  lemma MessageLayout(e: Cipher, now: nat, message: seq<byte>)
    requires now < Pow2(64)
    ensures var c := Protected(e, now, message);
      |c| == |message| + 24 && LE(c[..8]) == now && c[8..] == Rfc5297.SivEncrypt(e, c[..8], message)
  {
    hide LE, ToLE, Pow2, Encrypt, Rfc5297.SivEncrypt;
    var stamp := ToLE(now, 8);
    ToLEValue(now, 8);
    Rfc5297.EncryptIsStandard(e, stamp, message);
    assert Protected(e, now, message) == stamp + Encrypt(e, stamp, message);
  }

  /** The clock is not set, stamps are ignored, or the times are at most ten minutes apart. */
  predicate Timely(sent: nat, now: nat, ignoreTimestamp: bool) {
    now < 946684800 || ignoreTimestamp || (sent <= now + 600 && now <= sent + 600)
  }

  /** What two stores need for messages under a topic: its key, and no other one. */
  ghost predicate Shares(store: Store, h: Hash, k: Key)
    requires store.Valid()
    reads store, store.topics
  {
    h in store.Contents() && store.Contents()[h] == k
  }

  /** The topic is the control topic of the store and not one of its table, and this is the device key. */
  ghost predicate Controls(store: Store, h: Hash, k: Key)
    requires store.Valid()
    reads store, store.topics
  {
    h !in store.Contents() && store.ctrltopic == h && store.key == k
  }

  /** A message under a topic key arrives as it was sent, and the receiver stays as it was. */
  method Deliver(sender: Store, receiver: Store, h: Hash, k: Key, message: seq<byte>, sent: nat, now: nat,
                 ignoreTimestamp: bool, beyond: seq<byte>, io: IO, aes: Aes) returns (r: int, received: seq<byte>)
    requires sender.Valid() && receiver.Valid() && sent < Pow2(64) && |beyond| >= 16
    requires Shares(sender, h, k) && Shares(receiver, h, k)
    modifies receiver`key, receiver`topiccount, receiver`file, receiver`configured, receiver.topics
    ensures receiver.Valid() && received == message
    ensures r == if Timely(sent, now, ignoreTimestamp) then 0 else if sent > now then -102 else -103
    ensures receiver.key == old(receiver.key) && receiver.Contents() == old(receiver.Contents())
    ensures receiver.file == old(receiver.file) && receiver.configured == old(receiver.configured)
  {
    hide Protected, Plaintext, Verdict, Stamp, Pow2, TimeVerdict;
    var s, cptr := ProtectMessage(sender, h, message, |message| + MSGHDR_LEN, sent, aes);
    Protection(aes(k), message, sent, now, ignoreTimestamp);
    r, received := UnprotectMessage(receiver, h, cptr, |message|, now, ignoreTimestamp, beyond, io, aes);
  }

  lemma Protection(e: Cipher, message: seq<byte>, sent: nat, now: nat, ignoreTimestamp: bool)
    requires sent < Pow2(64)
    ensures var c := Protected(e, sent, message);
      && Plaintext(e, c) == message
      && Verdict(e, c, now, ignoreTimestamp)
        == if Timely(sent, now, ignoreTimestamp) then 0 else if sent > now then -102 else -103
  {
    hide Protected, Plaintext, Stamp, Pow2;
    UnprotectProtected(e, sent, now, ignoreTimestamp, message);
    TimeSides(sent, now, ignoreTimestamp);
  }

  /** A message on the control topic under the device key: the receiver carries out its command. */
  method Command(sender: Store, receiver: Store, h: Hash, k: Key, command: seq<byte>, sent: nat, now: nat,
                 ignoreTimestamp: bool, beyond: seq<byte>, io: IO, aes: Aes) returns (r: int, received: seq<byte>)
    requires sender.Valid() && receiver.Valid() && sent < Pow2(64) && |beyond| >= 16
    requires Controls(sender, h, k) && Controls(receiver, h, k) && Timely(sent, now, ignoreTimestamp)
    modifies receiver`key, receiver`topiccount, receiver`file, receiver`configured, receiver.topics
    ensures receiver.Valid() && received == command
    ensures r == Outcome(old(ModelOf(receiver)), Parse(command, beyond), io)
    ensures ModelOf(receiver) == Apply(old(ModelOf(receiver)), Parse(command, beyond))
  {
    hide Protected, Plaintext, Verdict, Stamp, Pow2, TimeVerdict, Parse, Apply, Outcome, Syncs;
    var s, cptr := ProtectMessage(sender, h, command, |command| + MSGHDR_LEN, sent, aes);
    Protection(aes(k), command, sent, now, ignoreTimestamp);
    r, received := UnprotectMessage(receiver, h, cptr, |command|, now, ignoreTimestamp, beyond, io, aes);
  }

  /** Whether the file takes a table of n entries. */
  ghost predicate Kept(store: Store, io: IO, n: nat)
    reads store
  {
    store.configured && io.Writes? && io.budget >= 54 + 48 * n
  }

  /** SetTopicKey files the key under the topic while the topic is present or there is room, and leaves
    * the other topics alone; otherwise nothing changes. */
  method SendSetTopicKey(sender: Store, receiver: Store, h: Hash, k: Key, topic: Hash, key: Key, sent: nat, now: nat,
                         ignoreTimestamp: bool, beyond: seq<byte>, io: IO, aes: Aes) returns (r: int)
    requires sender.Valid() && receiver.Valid() && sent < Pow2(64) && |beyond| >= 16
    requires Controls(sender, h, k) && Controls(receiver, h, k) && Timely(sent, now, ignoreTimestamp)
    modifies receiver`key, receiver`topiccount, receiver`file, receiver`configured, receiver.topics
    ensures receiver.Valid() && receiver.key == k
    ensures topic in old(receiver.Contents()) || old(receiver.topiccount) < 100 ==>
      && KeyOf(receiver, topic) == TopicKeyFound(key)
      && (forall g :: g != topic ==> KeyOf(receiver, g) == old(KeyOf(receiver, g)))
      && r == if old(Kept(receiver, io, |receiver.Contents()[topic := key]|)) then -1 else -108
    ensures topic !in old(receiver.Contents()) && old(receiver.topiccount) == 100 ==>
      r == -105 && receiver.Contents() == old(receiver.Contents())
  {
    hide Parse, Table, Distinct;
    ModelSize(receiver);
    ParseLayout(topic, key, beyond);
    var message;
    r, message := Command(sender, receiver, h, k, [3] + key + topic, sent, now, ignoreTimestamp, beyond, io, aes);
  }

  /** RemoveTopic leaves the topic without a key; a device key stays on the control topic. */
  method SendRemoveTopic(sender: Store, receiver: Store, h: Hash, k: Key, topic: Hash, sent: nat, now: nat,
                         ignoreTimestamp: bool, beyond: seq<byte>, io: IO, aes: Aes) returns (r: int)
    requires sender.Valid() && receiver.Valid() && sent < Pow2(64) && |beyond| >= 16
    requires Controls(sender, h, k) && Controls(receiver, h, k) && Timely(sent, now, ignoreTimestamp)
    modifies receiver`key, receiver`topiccount, receiver`file, receiver`configured, receiver.topics
    ensures receiver.Valid() && receiver.key == k
    ensures KeyOf(receiver, topic) == if topic == h then ControlKey(k) else NoKey
    ensures forall g :: g != topic ==> KeyOf(receiver, g) == old(KeyOf(receiver, g))
    ensures r == if topic !in old(receiver.Contents()) then -105
                 else if old(receiver.topiccount) < 100 && old(Kept(receiver, io, receiver.topiccount - 1)) then -1
                 else -108
  {
    hide Parse, Table, Distinct;
    ModelSize(receiver);
    ParseLayout(topic, k, beyond);
    var message;
    r, message := Command(sender, receiver, h, k, [0] + topic, sent, now, ignoreTimestamp, beyond, io, aes);
    ModelSize(receiver);
  }

  /** ResetTopics leaves no key but the device key, and always reports success. */
  method SendResetTopics(sender: Store, receiver: Store, h: Hash, k: Key, sent: nat, now: nat,
                         ignoreTimestamp: bool, beyond: seq<byte>, io: IO, aes: Aes) returns (r: int)
    requires sender.Valid() && receiver.Valid() && sent < Pow2(64) && |beyond| >= 16
    requires Controls(sender, h, k) && Controls(receiver, h, k) && Timely(sent, now, ignoreTimestamp)
    modifies receiver`key, receiver`topiccount, receiver`file, receiver`configured, receiver.topics
    ensures receiver.Valid() && receiver.key == k && r == -1
    ensures forall g :: KeyOf(receiver, g) == if g == h then ControlKey(k) else NoKey
  {
    hide Parse, Table, Distinct;
    ParseLayout(h, k, beyond);
    var message;
    r, message := Command(sender, receiver, h, k, [1], sent, now, ignoreTimestamp, beyond, io, aes);
  }

  /** SetIdKey changes the device key and no other one. */
  method SendSetIdKey(sender: Store, receiver: Store, h: Hash, k: Key, key: Key, sent: nat, now: nat,
                      ignoreTimestamp: bool, beyond: seq<byte>, io: IO, aes: Aes) returns (r: int)
    requires sender.Valid() && receiver.Valid() && sent < Pow2(64) && |beyond| >= 16
    requires Controls(sender, h, k) && Controls(receiver, h, k) && Timely(sent, now, ignoreTimestamp)
    modifies receiver`key, receiver`topiccount, receiver`file, receiver`configured, receiver.topics
    ensures receiver.Valid() && receiver.key == key && r == -1
    ensures KeyOf(receiver, h) == ControlKey(key)
    ensures forall g :: g != h ==> KeyOf(receiver, g) == old(KeyOf(receiver, g))
  {
    hide Parse, Table, Distinct;
    ParseLayout(h, key, beyond);
    var message;
    r, message := Command(sender, receiver, h, k, [2] + key, sent, now, ignoreTimestamp, beyond, io, aes);
  }
}
