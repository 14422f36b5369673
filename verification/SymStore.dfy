/** The symmetric topic-key store and its file (e4c_store_file.c): a bounded array that behaves as a
  * finite map, and a persistent format that round trips. */
module SymStore {
  import opened Bytes

  const TOPICS_MAX := 100

  const RESULT_OK := 0
  const ERROR_TOPICKEY_MISSING := -105
  const ERROR_PERSISTENCE_ERROR := -108

  type Hash = s: seq<byte> | |s| == 16 witness Zeros(16)

  /** uint16_t */
  type word16 = x: int | 0 <= x < 0x1_0000

  type Key = s: seq<byte> | |s| == 32 witness Zeros(32)

  datatype TopicKey = TopicKey(topic: Hash, key: Key)

  // ---- the table as a map --------------------------------------------------------------

  /** What a list of entries means. */
  function Table(s: seq<TopicKey>): map<Hash, Key> {
    if s == [] then map[] else Table(s[..|s| - 1])[s[|s| - 1].topic := s[|s| - 1].key]
  }

  ghost predicate Distinct(s: seq<TopicKey>) {
    forall i, j :: 0 <= i < j < |s| ==> s[i].topic != s[j].topic
  }

  /** A table lookup is a search. */
  lemma {:induction false} TableLookup(s: seq<TopicKey>, i: nat)
    requires Distinct(s) && i < |s|
    ensures s[i].topic in Table(s) && Table(s)[s[i].topic] == s[i].key
  {
    if i < |s| - 1 {
      TableLookup(s[..|s| - 1], i);
    }
  }

  lemma {:induction false} TableMissing(s: seq<TopicKey>, h: Hash)
    requires forall j :: 0 <= j < |s| ==> s[j].topic != h
    ensures h !in Table(s)
  {
    if s == [] {
    } else {
      TableMissing(s[..|s| - 1], h);
    }
  }

  /** The table has as many entries as the list. */
  lemma {:induction false} TableSize(s: seq<TopicKey>)
    requires Distinct(s)
    ensures |Table(s)| == |s|
  {
    if s == [] {
    } else {
      var t := s[..|s| - 1];
      TableSize(t);
      TableMissing(t, s[|s| - 1].topic);
    }
  }

  lemma TableLast(s: seq<TopicKey>, e: TopicKey)
    ensures Table(s + [e]) == Table(s)[e.topic := e.key]
  {
    assert (s + [e])[..|s|] == s;
  }

  /** Overwriting the key at one position. */
  lemma {:induction false} TableUpdate(s: seq<TopicKey>, i: nat, e: TopicKey)
    requires Distinct(s) && i < |s| && e.topic == s[i].topic
    ensures Table(s[i := e]) == Table(s)[e.topic := e.key]
  {
    var n := |s| - 1;
    var r, last := s[..n], s[n];
    hide Table;
    TableLast(r, last);
    assert s == r + [last];
    if i < n {
      TableUpdate(r, i, e);
      TableLast(r[i := e], last);
      UpdateLast(r, last, i, e);
      UpdateOther(Table(r), e.topic, e.key, last.topic, last.key);
    } else {
      TableLast(r, e);
      assert s[i := e] == r + [e];
      UpdateSame(Table(r), e.topic, last.key, e.key);
    }
  }

  lemma UpdateLast<T>(r: seq<T>, last: T, i: nat, e: T)
    requires i < |r|
    ensures (r + [last])[i := e] == r[i := e] + [last]
  {
  }

  lemma CutLast<T>(r: seq<T>, last: T, i: nat)
    requires i < |r|
    ensures (r + [last])[..i] + (r + [last])[i + 1..] == r[..i] + r[i + 1..] + [last]
  {
    assert (r + [last])[..i] == r[..i] && (r + [last])[i + 1..] == r[i + 1..] + [last];
  }

  lemma UpdateOther(m: map<Hash, Key>, h: Hash, k: Key, t: Hash, v: Key)
    requires h != t
    ensures m[h := k][t := v] == m[t := v][h := k]
  {
  }

  lemma UpdateSame(m: map<Hash, Key>, h: Hash, k: Key, v: Key)
    ensures m[h := k][h := v] == m[h := v]
  {
  }

  lemma DistinctUpdate(s: seq<TopicKey>, i: nat, e: TopicKey)
    requires Distinct(s) && i < |s| && e.topic == s[i].topic
    ensures Distinct(s[i := e])
  {
  }

  lemma DistinctAppend(s: seq<TopicKey>, e: TopicKey)
    requires Distinct(s) && forall j :: 0 <= j < |s| ==> s[j].topic != e.topic
    ensures Distinct(s + [e])
  {
  }

  /** Cutting out one position. */
  lemma {:induction false} TableRemove(s: seq<TopicKey>, i: nat)
    requires Distinct(s) && i < |s|
    ensures Table(s[..i] + s[i + 1..]) == Table(s) - {s[i].topic}
  {
    var n := |s| - 1;
    var r, last := s[..n], s[n];
    hide Table;
    TableLast(r, last);
    assert s == r + [last];
    if i < n {
      TableRemove(r, i);
      TableLast(r[..i] + r[i + 1..], last);
      CutLast(r, last, i);
      MinusOther(Table(r), s[i].topic, last.topic, last.key);
    } else {
      assert s[..i] + s[i + 1..] == r;
      TableMissing(r, last.topic);
      MinusLast(Table(r), last.topic, last.key);
    }
  }

  lemma MinusOther(m: map<Hash, Key>, h: Hash, t: Hash, k: Key)
    requires h != t
    ensures (m - {h})[t := k] == m[t := k] - {h}
  {
  }

  lemma MinusLast(m: map<Hash, Key>, h: Hash, k: Key)
    requires h !in m
    ensures m[h := k] - {h} == m
  {
  }

  lemma DistinctRemove(s: seq<TopicKey>, i: nat)
    requires Distinct(s) && i < |s|
    ensures Distinct(s[..i] + s[i + 1..])
  {
    var t := s[..i] + s[i + 1..];
    forall j, k | 0 <= j < k < |t| ensures t[j].topic != t[k].topic {
      assert t[j] == s[if j < i then j else j + 1] && t[k] == s[if k < i then k else k + 1];
    }
  }

  // ---- the file format -----------------------------------------------------------------

  function Min(a: nat, b: nat): nat { if a < b then a else b }

  const MAGIC: seq<byte> := [0x45, 0x34, 0x31, 0x50]

  const ENTRIES := 54

  function Flat(s: seq<TopicKey>): (b: seq<byte>)
    ensures |b| == 48 * |s|
  {
    if s == [] then [] else Flat(s[..|s| - 1]) + s[|s| - 1].topic + s[|s| - 1].key
  }

  /** What sync writes. */
  function Serialize(id: Hash, key: Key, s: seq<TopicKey>): (b: seq<byte>)
    ensures |b| == ENTRIES + 48 * |s|
  {
    MAGIC + id + key + ToLE(|s|, 2) + Flat(s)
  }

  /** Bytes written over the start of a file that is not truncated. */
  function Overwrite(file: seq<byte>, data: seq<byte>): seq<byte> {
    data + if |file| > |data| then file[|data|..] else []
  }

  function Count(file: seq<byte>): nat
    requires |file| >= ENTRIES
  {
    LE(file[52..54])
  }

  /** What load accepts: the magic, at most 100 entries, and enough bytes for them. */
  predicate WellFormed(file: seq<byte>) {
    && |file| >= ENTRIES && file[..4] == MAGIC
    && Count(file) <= TOPICS_MAX && |file| >= ENTRIES + 48 * Count(file)
  }

  function EntryAt(file: seq<byte>, i: nat): TopicKey
    requires |file| >= ENTRIES + 48 * i + 48
  {
    var p := ENTRIES + 48 * i;
    TopicKey(file[p..p + 16], file[p + 16..p + 48])
  }

  function Entries(file: seq<byte>, n: nat): (s: seq<TopicKey>)
    requires |file| >= ENTRIES + 48 * n
    ensures |s| == n
  {
    if n == 0 then [] else Entries(file, n - 1) + [EntryAt(file, n - 1)]
  }

  lemma {:induction false} FlatAt(s: seq<TopicKey>, i: nat)
    requires i < |s|
    ensures Flat(s)[48 * i..48 * i + 16] == s[i].topic && Flat(s)[48 * i + 16..48 * i + 48] == s[i].key
  {
    var n := |s| - 1;
    if i < n {
      FlatAt(s[..n], i);
      FlatLast(s);
      PrefixSlice(Flat(s[..n]), s[n].topic + s[n].key, 48 * i, 48 * i + 16);
      PrefixSlice(Flat(s[..n]), s[n].topic + s[n].key, 48 * i + 16, 48 * i + 48);
    } else {
      FlatLast(s);
      SuffixSlice(Flat(s[..n]), s[n].topic, s[n].key);
    }
  }

  lemma FlatLast(s: seq<TopicKey>)
    requires |s| > 0
    ensures Flat(s) == Flat(s[..|s| - 1]) + (s[|s| - 1].topic + s[|s| - 1].key)
  {
  }

  lemma PrefixSlice(x: seq<byte>, y: seq<byte>, a: nat, b: nat)
    requires a <= b <= |x|
    ensures (x + y)[a..b] == x[a..b]
  {
  }

  lemma SuffixSlice(x: seq<byte>, y: seq<byte>, z: seq<byte>)
    ensures var s := x + (y + z); s[|x|..|x| + |y|] == y && s[|x| + |y|..|x| + |y| + |z|] == z
  {
  }

  lemma SubSlice(s: seq<byte>, p: nat, q: nat, a: nat, b: nat)
    requires p <= q <= |s| && a <= b <= q - p
    ensures s[p..q][a..b] == s[p + a..p + b]
  {
    var t := s[p..q];
    var x, y := t[a..b], s[p + a..p + b];
    forall i | 0 <= i < b - a ensures x[i] == y[i] {
      assert x[i] == t[a + i] && t[a + i] == s[p + (a + i)];
    }
  }

  lemma {:induction false} EntriesOfFlat(file: seq<byte>, s: seq<TopicKey>, n: nat)
    requires n <= |s| && |file| >= ENTRIES + 48 * |s| && file[ENTRIES..ENTRIES + 48 * |s|] == Flat(s)
    ensures Entries(file, n) == s[..n]
  {
    if n == 0 {
    } else {
      EntriesOfFlat(file, s, n - 1);
      FlatAt(s, n - 1);
      var k := 48 * (n - 1);
      SubSlice(file, ENTRIES, ENTRIES + 48 * |s|, k, k + 16);
      SubSlice(file, ENTRIES, ENTRIES + 48 * |s|, k + 16, k + 48);
      assert s[..n] == s[..n - 1] + [s[n - 1]];
    }
  }

  /** What a read of |was| bytes at an offset of the file leaves in a buffer: fewer than that at the end
    * of the file. */
  function Field(file: seq<byte>, offset: nat, was: seq<byte>): (now: seq<byte>)
    ensures |now| == |was|
    ensures |file| >= offset + |was| ==> now == file[offset..offset + |was|]
    ensures |file| <= offset ==> now == was
  {
    var n := if |file| <= offset then 0 else Min(|file| - offset, |was|);
    if n == 0 then was else file[offset..offset + n] + was[n..]
  }

  /** Entry i after a read of its two fields. */
  function EntryRead(file: seq<byte>, i: nat, was: TopicKey): TopicKey {
    var p := ENTRIES + 48 * i;
    TopicKey(Field(file, p, was.topic), Field(file, p + 16, was.key))
  }

  /** The bytes of the file: "E41P", the identity, the key, a 16-bit count with the low byte first, and for
    * each entry 16 bytes of topic hash and 32 bytes of key. */
  lemma FileLayout(id: Hash, key: Key, s: seq<TopicKey>, i: nat)
    requires i < |s| <= TOPICS_MAX
    ensures var data := Serialize(id, key, s); var p := 54 + 48 * i;
      && |data| == 54 + 48 * |s| && data[..4] == [0x45, 0x34, 0x31, 0x50] && data[4..20] == id && data[20..52] == key
      && data[52] as int + 256 * data[53] as int == |s|
      && data[p..p + 16] == s[i].topic && data[p + 16..p + 48] == s[i].key
  {
    var data := Serialize(id, key, s);
    hide Serialize, Flat, LE, ToLE;
    Fields(id, key, s);
    TwoBytes(data[52..54]);
    FlatAt(s, i);
    SubSlice(data, ENTRIES, |data|, 48 * i, 48 * i + 16);
    SubSlice(data, ENTRIES, |data|, 48 * i + 16, 48 * i + 48);
  }

  /** And what load takes from there. */
  lemma {:induction false} EntriesLayout(file: seq<byte>, n: nat, i: nat)
    requires i < n && |file| >= 54 + 48 * n
    ensures var p := 54 + 48 * i; Entries(file, n)[i] == TopicKey(file[p..p + 16], file[p + 16..p + 48])
  {
    if i < n - 1 {
      EntriesLayout(file, n - 1, i);
    }
  }

  /** What load reads from the file: this identity, key and table. */
  predicate Saves(file: seq<byte>, id: Hash, key: Key, s: seq<TopicKey>) {
    WellFormed(file) && Count(file) == |s| && file[4..20] == id && file[20..52] == key && Entries(file, |s|) == s
  }

  /** Loading what was synced gives back everything, whatever longer file was there before. */
  lemma SyncLoadRoundTrip(old': seq<byte>, id: Hash, key: Key, s: seq<TopicKey>)
    requires |s| <= TOPICS_MAX
    ensures Saves(Overwrite(old', Serialize(id, key, s)), id, key, s)
  {
    var data := Serialize(id, key, s);
    var file := Overwrite(old', data);
    hide Serialize, Overwrite, Entries, Flat;
    Written(old', data);
    Fields(id, key, s);
    SamePrefix(file, data);
    EntriesOfFlat(file, s, |s|);
    assert s[..|s|] == s;
  }

  lemma Written(old': seq<byte>, data: seq<byte>)
    ensures |Overwrite(old', data)| >= |data| && Overwrite(old', data)[..|data|] == data
  {
  }

  lemma SamePrefix(file: seq<byte>, data: seq<byte>)
    requires |file| >= |data| >= ENTRIES && file[..|data|] == data
    ensures file[..4] == data[..4] && file[4..20] == data[4..20] && file[20..52] == data[20..52]
    ensures file[52..54] == data[52..54] && file[ENTRIES..|data|] == data[ENTRIES..]
  {
    assert data[..4] == file[..|data|][..4] && data[4..20] == file[..|data|][4..20]
      && data[20..52] == file[..|data|][20..52];
    assert data[52..54] == file[..|data|][52..54] && data[ENTRIES..] == file[..|data|][ENTRIES..];
  }

  lemma Fields(id: Hash, key: Key, s: seq<TopicKey>)
    requires |s| <= TOPICS_MAX
    ensures var data := Serialize(id, key, s);
      && data[..4] == MAGIC && data[4..20] == id && data[20..52] == key && LE(data[52..54]) == |s|
        && data[ENTRIES..] == Flat(s)
  {
    hide Flat, ToLE, LE;
    FiveParts(MAGIC, id, key, ToLE(|s|, 2), Flat(s));
    assert Pow2(16) == 0x1_0000 by { Pow2Small(); }
    ToLEValue(|s|, 2);
  }

  lemma FiveParts(a: seq<byte>, b: seq<byte>, c: seq<byte>, d: seq<byte>, e: seq<byte>)
    requires |a| == 4 && |b| == 16 && |c| == 32 && |d| == 2
    ensures var s := a + b + c + d + e;
      s[..4] == a && s[4..20] == b && s[20..52] == c && s[52..54] == d && s[54..] == e
  {
    var s, abc, ab := a + b + c + d + e, a + b + c, a + b;
    PrefixSlice(abc + d, e, 52, 54);
    PrefixSlice(abc, d + e, 20, 52);
    PrefixSlice(ab, c + d + e, 4, 20);
    assert s == abc + (d + e) && s == ab + (c + d + e) && s == a + (b + c + d + e);
    assert (abc + d)[52..54] == d && abc[20..52] == c && ab[4..20] == b;
  }

  // ---- the store -----------------------------------------------------------------------

  /** How many bytes the system takes before a write fails; or the file does not open. */
  datatype IO = NoFile | Writes(budget: nat)

  /** Whether the system takes n bytes. */
  predicate Takes(io: IO, n: nat) { io.Writes? && io.budget >= n }

  /** The file after the data went over its start, as far as the system took it. */
  function AfterSync(was: seq<byte>, data: seq<byte>, io: IO): seq<byte> {
    if io.NoFile? then was else Overwrite(was, data[..Min(io.budget, |data|)])
  }

  /** A sync that goes through saves everything. */
  lemma SyncSaves(was: seq<byte>, id: Hash, key: Key, s: seq<TopicKey>, io: IO)
    requires |s| <= TOPICS_MAX && Takes(io, ENTRIES + 48 * |s|)
    ensures Saves(AfterSync(was, Serialize(id, key, s), io), id, key, s)
  {
    hide Serialize, Overwrite, Saves;
    var data := Serialize(id, key, s);
    assert data[..|data|] == data;
    SyncLoadRoundTrip(was, id, key, s);
  }

  /** A reset over a file that is in step: 53 bytes are what it takes to clear the count. With fewer the
    * file stays as it was, and with it all its topics. */
  lemma ResetOnFile(was: seq<byte>, id: Hash, key: Key, s: seq<TopicKey>, io: IO)
    requires Saves(was, id, key, s)
    ensures var now := AfterSync(was, Serialize(id, key, []), io);
      && (Saves(now, id, key, []) <==> s == [] || Takes(io, 53))
      && (!Takes(io, 53) ==> now == was)
  {
    var data := Serialize(id, key, []);
    hide Serialize, Saves;
    ResetData(was, id, key, s);
    SyncLoadRoundTrip(was, id, key, []);
    if io.Writes? {
      var n := Min(io.budget, |data|);
      if n < 53 {
        assert was[..n] == was[..52][..n] == data[..52][..n] == data[..n];
        assert Overwrite(was, data[..n]) == was;
      } else {
        assert data[..54] == data;
        assert was[..53] + was[53..] == was;
        assert data[..53] + was[53..] == data + was[54..];
        assert AfterSync(was, data, io) == Overwrite(was, data);
      }
    }
    assert !Takes(io, 53) ==> AfterSync(was, data, io) == was;
    if Saves(was, id, key, []) {
      SameTable(was, id, key, s, []);
    }
  }

  /** Where the data of a reset differs from the file: in the low byte of the count. */
  lemma ResetData(was: seq<byte>, id: Hash, key: Key, s: seq<TopicKey>)
    requires Saves(was, id, key, s)
    ensures var data := Serialize(id, key, []);
      |data| == 54 <= |was| && data[..52] == was[..52] && data[52] == 0 && data[53] == was[53] == 0
  {
    var data := Serialize(id, key, []);
    hide Serialize, Entries;
    Fields(id, key, []);
    Parts(was, data);
    TwoBytes(was[52..54]);
    TwoBytes(data[52..54]);
  }

  lemma Parts(a: seq<byte>, b: seq<byte>)
    requires |a| >= 52 && |b| >= 52 && a[..4] == b[..4] && a[4..20] == b[4..20] && a[20..52] == b[20..52]
    ensures a[..52] == b[..52]
  {
    assert a[..52] == a[..4] + a[4..20] + a[20..52];
    assert b[..52] == b[..4] + b[4..20] + b[20..52];
  }

  lemma TwoBytes(s: seq<byte>)
    requires |s| == 2
    ensures LE(s) == s[0] as int + 256 * s[1] as int
  {
    LE2(s);
  }

  lemma SameTable(file: seq<byte>, id: Hash, key: Key, s: seq<TopicKey>, t: seq<TopicKey>)
    requires Saves(file, id, key, s) && Saves(file, id, key, t)
    ensures s == t
  {
  }

  /** The entry that a removal sets to zero. */
  datatype Cleared = Nothing | Entry(index: nat)

  predicate InArray(c: Cleared) { c.Nothing? || c.index < TOPICS_MAX }

  class Store {
    var id: Hash
    var key: Key
    var ctrltopic: Hash
    var topiccount: word16
    const topics: array<TopicKey>
    /** Whether filepath, the field behind the array, holds a path. */
    var configured: bool
    /** The file at that path. */
    var file: seq<byte>
    /** e4c_derive_topichash after e4c_derive_control_topic. */
    const derive: Hash -> Hash

    ghost predicate Valid()
      reads this, topics
    {
      topics.Length == TOPICS_MAX && topiccount <= TOPICS_MAX && Distinct(topics[..topiccount])
    }

    /** The live entries as a map. */
    ghost function Contents(): map<Hash, Key>
      requires Valid()
      reads this, topics
    {
      Table(topics[..topiccount])
    }

    /** e4c_symkey_init */
    constructor (derive: Hash -> Hash)
      ensures Valid() && Contents() == map[] && fresh(topics) && this.derive == derive && !configured && file == []
    {
      this.derive := derive;
      id, key, ctrltopic, topiccount := Zeros(16), Zeros(32), Zeros(16), 0;
      configured, file := false, [];
      topics := new TopicKey[TOPICS_MAX](_ => TopicKey(Zeros(16), Zeros(32)));
    }

    /** e4c_symkey_set_id: the control topic follows the identity. */
    method SetId(newId: Hash)
      requires Valid()
      modifies this`id, this`ctrltopic
      ensures Valid() && id == newId && ctrltopic == derive(newId) && Contents() == old(Contents())
    {
      ctrltopic := derive(newId);
      id := newId;
    }

    method SetIdKey(newKey: Key)
      requires Valid()
      modifies this`key
      ensures Valid() && key == newKey && Contents() == old(Contents())
    {
      key := newKey;
    }

    /** The search that lookup, update and removal share: the first match, or topiccount. */
    method Search(h: Hash) returns (i: nat)
      requires Valid()
      ensures i <= topiccount && (i < topiccount <==> h in Contents())
      ensures i < topiccount ==> topics[i].topic == h && topics[i].key == Contents()[h]
      ensures forall j :: 0 <= j < i ==> topics[j].topic != h
    {
      i := 0;
      while i < topiccount && topics[i].topic != h
        invariant 0 <= i <= topiccount && forall j :: 0 <= j < i ==> topics[j].topic != h
      {
        i := i + 1;
      }
      SearchTable(topics[..topiccount], h, i);
    }

    /** e4c_symkey_gettopicindex on a topic hash. */
    method GetTopicIndex(h: Hash) returns (i: int)
      requires Valid()
      ensures h in Contents() ==> 0 <= i < topiccount && topics[i].key == Contents()[h]
      ensures h !in Contents() ==> i == ERROR_TOPICKEY_MISSING
    {
      i := Search(h);
      if i >= topiccount {
        return ERROR_TOPICKEY_MISSING;
      }
    }

    /** A sync of the present state over the earlier file: its return code and what it wrote. */
    ghost predicate SyncedFrom(was: seq<byte>, io: IO, r: int)
      requires Valid()
      reads this, topics
    {
      && r == (if configured && Takes(io, ENTRIES + 48 * topiccount) then RESULT_OK else ERROR_PERSISTENCE_ERROR)
      && file == if configured then AfterSync(was, Serialize(id, key, topics[..topiccount]), io) else was
    }

    /** e4c_symkey_sync: the whole state from offset 0, without truncation. */
    method Sync(io: IO) returns (r: int)
      requires Valid()
      modifies this`file
      ensures SyncedFrom(old(file), io, r)
    {
      if !configured || io.NoFile? {
        return ERROR_PERSISTENCE_ERROR;
      }
      var data := MAGIC + id + key + ToLE(topiccount, 2);
      for i := 0 to topiccount
        invariant data == MAGIC + id + key + ToLE(topiccount, 2) + Flat(topics[..i])
      {
        assert topics[..i + 1][..i] == topics[..i];
        data := data + topics[i].topic + topics[i].key;
      }
      assert data == Serialize(id, key, topics[..topiccount]);
      file := Overwrite(file, data[..Min(io.budget, |data|)]);
      r := if io.budget >= |data| then RESULT_OK else ERROR_PERSISTENCE_ERROR;
    }

    /** e4c_symkey_set_topic_key: an update, or a new entry while there is room. */
    method SetTopicKey(h: Hash, k: Key, io: IO) returns (r: int)
      requires Valid()
      modifies this`topiccount, this`file, topics
      ensures Valid()
      ensures h in old(Contents()) || old(topiccount) < TOPICS_MAX ==>
        Contents() == old(Contents())[h := k] && SyncedFrom(old(file), io, r)
      ensures h !in old(Contents()) && old(topiccount) == TOPICS_MAX ==>
        && r == ERROR_TOPICKEY_MISSING && file == old(file)
        && topiccount == old(topiccount) && topics[..] == old(topics[..])
    {
      var i := Search(h);
      if i >= TOPICS_MAX {
        return ERROR_TOPICKEY_MISSING;
      }
      ghost var s := topics[..topiccount];
      topics[i] := TopicKey(h, k);
      if i == topiccount {
        topiccount := topiccount + 1;
        assert topics[..topiccount] == s + [TopicKey(h, k)];
        TableLast(s, TopicKey(h, k));
        DistinctAppend(s, TopicKey(h, k));
      } else {
        assert topics[..topiccount] == s[i := TopicKey(h, k)];
        TableUpdate(s, i, TopicKey(h, k));
        DistinctUpdate(s, i, TopicKey(h, k));
      }
      r := Sync(io);
    }

    /** The loop that moves each later entry one place up. */
    method MoveUp(i: nat)
      requires i < topiccount <= topics.Length
      modifies topics
      ensures topics[..topiccount - 1] == old(topics[..i] + topics[i + 1..topiccount])
    {
      ghost var s := topics[..topiccount];
      var j := i + 1;
      while j < topiccount
        invariant i + 1 <= j <= topiccount
        invariant topics[..j - 1] == s[..i] + s[i + 1..j]
        invariant forall l :: j <= l < topiccount ==> topics[l] == s[l]
      {
        topics[j - 1] := topics[j];
        assert topics[..j] == topics[..j - 1] + [topics[j - 1]];
        j := j + 1;
      }
    }

    /** ZERO(topic_keys[i]). One past the array this clears the start of filepath. */
    method ZeroEntry(i: nat)
      requires topics.Length == TOPICS_MAX && i <= TOPICS_MAX
      modifies topics, this`configured
      ensures i < TOPICS_MAX ==>
        topics[..] == old(topics[..])[i := TopicKey(Zeros(16), Zeros(32))] && configured == old(configured)
      ensures i == TOPICS_MAX ==> topics[..] == old(topics[..]) && !configured
    {
      if i < topics.Length {
        topics[i] := TopicKey(Zeros(16), Zeros(32));
      } else {
        configured := false;
      }
    }

    /** e4c_symkey_remove_topic: later entries move up, and the entry past the last one is zeroed,
      * which lies in the array exactly when the table was not full. */
    method RemoveTopic(h: Hash, io: IO) returns (r: int, cleared: Cleared)
      requires Valid()
      modifies this`topiccount, this`file, this`configured, topics
      ensures Valid() && Contents() == old(Contents()) - {h}
      ensures cleared == if h in old(Contents()) then Entry(old(topiccount)) else Nothing
      ensures InArray(cleared) <==> h !in old(Contents()) || old(topiccount) < TOPICS_MAX
      ensures configured == (old(configured) && InArray(cleared))
      ensures h in old(Contents()) ==> topiccount == old(topiccount) - 1 && SyncedFrom(old(file), io, r)
      ensures h !in old(Contents()) ==>
        r == ERROR_TOPICKEY_MISSING && file == old(file) && topiccount == old(topiccount)
          && topics[..] == old(topics[..])
    {
      var i := Search(h);
      if i < topiccount {
        hide Table, Serialize;
        ghost var s := topics[..topiccount];
        MoveUp(i);
        ghost var moved := topics[..topiccount - 1];
        cleared := Entry(topiccount);
        ZeroEntry(topiccount);
        topiccount := topiccount - 1;
        assert topics[..topiccount] == moved == s[..i] + s[i + 1..];
        TableRemove(s, i);
        DistinctRemove(s, i);
        r := Sync(io);
        return;
      }
      r, cleared := ERROR_TOPICKEY_MISSING, Nothing;
    }

    /** e4c_symkey_reset_topics: reports success whether or not the sync went through. */
    method ResetTopics(io: IO) returns (r: int)
      requires Valid()
      modifies this`topiccount, this`file
      ensures Valid() && Contents() == map[] && topiccount == 0 && r == RESULT_OK
      ensures exists code :: SyncedFrom(old(file), io, code)
    {
      if topiccount > 0 {
        topiccount := 0;
      }
      var ignored := Sync(io);
      r := RESULT_OK;
    }

    /** e4c_symkey_load. Every read that comes short ends it and leaves what was read so far. A file
      * that does not open is one without bytes. */
    method Load(content: seq<byte>) returns (r: int)
      requires topics.Length == TOPICS_MAX
      modifies this, topics
      ensures file == content && configured
      ensures r == if WellFormed(content) then RESULT_OK else ERROR_PERSISTENCE_ERROR
      ensures if Magic(content) then LoadedHeader(content, old(id), old(key), old(topiccount), old(ctrltopic))
              else id == old(id) && key == old(key) && topiccount == old(topiccount) && ctrltopic == old(ctrltopic)
      ensures forall i :: 0 <= i < TOPICS_MAX ==>
        topics[i] == if Magic(content) && i < topiccount <= TOPICS_MAX then EntryRead(content, i, old(topics[i]))
                     else old(topics[i])
      ensures WellFormed(content) ==>
        && id == content[4..20] && key == content[20..52] && ctrltopic == derive(id)
        && topiccount == Count(content) && topics[..topiccount] == Entries(content, topiccount)
      ensures WellFormed(content) ==> (Valid() <==> Distinct(Entries(content, Count(content))))
    {
      configured, file := true, content;
      if !Magic(content) {
        return ERROR_PERSISTENCE_ERROR;
      }
      r := LoadHeader(content);
      if r != RESULT_OK || topiccount > TOPICS_MAX {
        return ERROR_PERSISTENCE_ERROR;
      }
      r := LoadEntries(content);
    }

    /** The fields before the entries, as far as the file goes. */
    ghost predicate LoadedHeader(content: seq<byte>, oldId: Hash, oldKey: Key, oldCount: word16, oldTopic: Hash)
      reads this
    {
      && id == Field(content, 4, oldId) && key == Field(content, 20, oldKey)
      && topiccount == LE(Field(content, 52, ToLE(oldCount, 2)))
      && ctrltopic == if |content| >= 20 then derive(id) else oldTopic
    }

    method LoadHeader(content: seq<byte>) returns (r: int)
      requires Magic(content)
      modifies this`id, this`key, this`ctrltopic, this`topiccount
      ensures r == if |content| >= ENTRIES then RESULT_OK else ERROR_PERSISTENCE_ERROR
      ensures LoadedHeader(content, old(id), old(key), old(topiccount), old(ctrltopic))
      ensures |content| >= ENTRIES ==>
        id == content[4..20] && key == content[20..52] && ctrltopic == derive(id) && topiccount == Count(content)
    {
      hide Field, LE, ToLE;
      CountStays(topiccount);
      id := Field(content, 4, id);
      if |content| < 20 {
        return ERROR_PERSISTENCE_ERROR;
      }
      ctrltopic := derive(id);
      key := Field(content, 20, key);
      if |content| < 52 {
        return ERROR_PERSISTENCE_ERROR;
      }
      var count := Field(content, 52, ToLE(topiccount, 2));
      CountRange(count);
      topiccount := LE(count);
      r := if |content| < ENTRIES then ERROR_PERSISTENCE_ERROR else RESULT_OK;
    }

    method LoadEntry(content: seq<byte>, i: nat)
      requires topics.Length == TOPICS_MAX && |content| >= ENTRIES + 48 * i && i < TOPICS_MAX
      modifies topics
      ensures topics[..] == old(topics[..])[i := EntryRead(content, i, old(topics[i]))]
    {
      topics[i] := EntryRead(content, i, topics[i]);
    }

    method LoadEntries(content: seq<byte>) returns (r: int)
      requires topics.Length == TOPICS_MAX && |content| >= ENTRIES && topiccount <= TOPICS_MAX
      modifies topics
      ensures r == if |content| >= ENTRIES + 48 * topiccount then RESULT_OK else ERROR_PERSISTENCE_ERROR
      ensures forall i :: 0 <= i < TOPICS_MAX ==>
        topics[i] == if i < topiccount then EntryRead(content, i, old(topics[i])) else old(topics[i])
      ensures r == RESULT_OK ==> topics[..topiccount] == Entries(content, topiccount)
    {
      hide Field;
      for i := 0 to topiccount
        invariant |content| >= ENTRIES + 48 * i && topics[..i] == Entries(content, i)
        invariant forall j :: 0 <= j < i ==> topics[j] == EntryRead(content, j, old(topics[j]))
        invariant forall j :: i <= j < TOPICS_MAX ==> topics[j] == old(topics[j])
      {
        var p := ENTRIES + 48 * i;
        LoadEntry(content, i);
        if |content| < p + 48 {
          return ERROR_PERSISTENCE_ERROR;
        }
        assert topics[..i + 1] == topics[..i] + [topics[i]];
      }
      r := RESULT_OK;
    }
  }

  predicate Magic(file: seq<byte>) { |file| >= 4 && file[..4] == MAGIC }

  lemma CountStays(n: word16)
    ensures LE(ToLE(n, 2)) == n
  {
    hide LE, ToLE;
    assert Pow2(16) == 0x1_0000 by { Pow2Small(); }
    ToLEValue(n, 2);
  }

  lemma CountRange(s: seq<byte>)
    requires |s| == 2
    ensures 0 <= LE(s) < 0x1_0000
  {
    assert Pow2(16) == 0x1_0000 by { Pow2Small(); }
    LEBound(s);
  }

  lemma SearchTable(s: seq<TopicKey>, h: Hash, i: nat)
    requires Distinct(s) && i <= |s| && (forall j :: 0 <= j < i ==> s[j].topic != h) && (i < |s| ==> s[i].topic == h)
    ensures i < |s| <==> h in Table(s)
    ensures i < |s| ==> s[i].key == Table(s)[h]
  {
    if i < |s| {
      TableLookup(s, i);
    } else {
      TableMissing(s, h);
    }
  }

  /** A store that loads what another one synced has the same identity, key and table, and the
    * control topic of that identity, also over an older and longer file. */
  method SyncThenLoad(store: Store, other: Store, io: IO) returns (r: int, l: int)
    requires store.Valid() && other.topics.Length == TOPICS_MAX && store != other && store.topics != other.topics
    requires other.derive == store.derive
    modifies store`file, other, other.topics
    ensures r == RESULT_OK ==> l == RESULT_OK && other.Valid() && other.Contents() == old(store.Contents())
    ensures r == RESULT_OK ==>
      other.id == store.id && other.key == store.key && other.ctrltopic == store.derive(store.id)
  {
    ghost var s, old' := store.topics[..store.topiccount], store.file;
    r := store.Sync(io);
    if r == RESULT_OK {
      SyncSaves(old', store.id, store.key, s, io);
    }
    l := other.Load(store.file);
  }
}
