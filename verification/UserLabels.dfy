/** User labels (src/providers/DeviceInfoProviderImpl.cpp): each is stored as one TLV structure, and an
    iterator reads them back into NUL-terminated buffers. The record format is that of the Matter Core
    Specification, Appendix A: an anonymous structure of two context-tagged UTF-8 strings. */
module UserLabels {
  import opened DoorLockTypes

  const MAX_LABEL_NAME_LENGTH := 16
  const MAX_LABEL_VALUE_LENGTH := 16
  const TLV_MAX_SIZE := 42  // two strings of 16 bytes, four bytes of overhead each, and two for the structure

  const STRUCTURE: Byte := 0x15
  const CONTEXT_STRING: Byte := 0x2C  // context tag, UTF-8 string with a one-byte length
  const END_OF_CONTAINER: Byte := 0x18
  const NAME_TAG: Byte := 0
  const VALUE_TAG: Byte := 1
  const SEPARATOR: Byte := 0x1F  // the SDK's reader of strings returns what comes before it

  datatype Label = Label(name: seq<Byte>, value: seq<Byte>)

  // ---- Records

  function StringElement(tag: Byte, s: seq<Byte>): seq<Byte> {
    [CONTEXT_STRING, tag, |s| % 256] + s
  }

  function Encoded(userLabel: Label): seq<Byte> {
    [STRUCTURE] + StringElement(NAME_TAG, userLabel.name) + StringElement(VALUE_TAG, userLabel.value) + [END_OF_CONTAINER]
  }

  /** The bytes before the first `stop`. */
  function UpTo(stop: Byte, s: seq<Byte>): seq<Byte> {
    if s == [] || s[0] == stop then [] else [s[0]] + UpTo(stop, s[1..])
  }

  /** The record fits the writer's buffer. */
  predicate Fits(userLabel: Label) {
    |userLabel.name| + |userLabel.value| + 8 <= TLV_MAX_SIZE
  }

  datatype Parsed = Unreadable | Element(s: seq<Byte>, rest: nat)

  function ReadString(buffer: seq<Byte>, position: nat, tag: Byte): Parsed {
    if position + 3 > |buffer| || buffer[position] != CONTEXT_STRING || buffer[position + 1] != tag then Unreadable else
    var end := position + 3 + buffer[position + 2];
    if end > |buffer| then Unreadable else Element(UpTo(SEPARATOR, buffer[position + 3..end]), end)
  }

  /** The record at the beginning of the buffer; what follows its end is not looked at. */
  function Decoded(buffer: seq<Byte>): Option<Label> {
    if buffer == [] || buffer[0] != STRUCTURE then None else
    var name := ReadString(buffer, 1, NAME_TAG);
    if name.Unreadable? then None else
    var value := ReadString(buffer, name.rest, VALUE_TAG);
    if value.Unreadable? || value.rest >= |buffer| || buffer[value.rest] != END_OF_CONTAINER then None
    else Some(Label(name.s, value.s))
  }

  /** What the string reader makes of both strings. */
  function Cut(userLabel: Label): Label {
    Label(UpTo(SEPARATOR, userLabel.name), UpTo(SEPARATOR, userLabel.value))
  }

  /** A record that fits its buffer decodes to the label it was made from, each string up to its first
      separator, whatever follows the record. */
  lemma RecordRoundTrip(userLabel: Label, buffer: seq<Byte>)
    requires |userLabel.name| < 256 && |userLabel.value| < 256 && Encoded(userLabel) <= buffer
    ensures Decoded(buffer) == Some(Cut(userLabel))
  {
    var record := Encoded(userLabel);
    var n := |userLabel.name|;
    assert forall i :: 0 <= i < |record| ==> buffer[i] == record[i];
    assert record[1] == CONTEXT_STRING && record[2] == NAME_TAG && record[3] == n;
    assert record[4..4 + n] == userLabel.name;
    assert record[4 + n] == CONTEXT_STRING && record[5 + n] == VALUE_TAG && record[6 + n] == |userLabel.value|;
    assert record[7 + n..7 + n + |userLabel.value|] == userLabel.value;
    assert buffer[4..4 + n] == record[4..4 + n];
    assert buffer[7 + n..7 + n + |userLabel.value|] == record[7 + n..7 + n + |userLabel.value|];
    assert record[|record| - 1] == END_OF_CONTAINER;
  }

  /** The bytes of a record. */
  lemma RecordFormat(userLabel: Label, i: nat)
    requires |userLabel.name| < 256 && |userLabel.value| < 256 && i < |Encoded(userLabel)|
    ensures var n, v := |userLabel.name|, |userLabel.value|;
      && |Encoded(userLabel)| == n + v + 8
      && Encoded(userLabel)[i] ==
         if i < 4 then [0x15, 0x2C, 0, n][i]
         else if i < 4 + n then userLabel.name[i - 4]
         else if i < 7 + n then [0x2C, 1, v][i - 4 - n]
         else if i < 7 + n + v then userLabel.value[i - 7 - n]
         else 0x18
  {
  }

  ghost predicate BeginsWith(buffer: seq<Byte>, userLabel: Label) {
    |userLabel.name| < 256 && |userLabel.value| < 256 && Encoded(userLabel) <= buffer
  }

  /** The label whose record a readable buffer begins with. */
  lemma Recovered(buffer: seq<Byte>) returns (userLabel: Label)
    requires Decoded(buffer).Some?
    ensures BeginsWith(buffer, userLabel)
  {
    var n: nat := buffer[3];
    var v: nat := buffer[6 + n];
    userLabel := Label(buffer[4..4 + n], buffer[7 + n..7 + n + v]);
    forall i | 0 <= i < |Encoded(userLabel)|
      ensures Encoded(userLabel)[i] == buffer[i]
    {
      RecordFormat(userLabel, i);
    }
  }

  /** Decoding succeeds exactly on buffers that begin with a record, and there it gives that record's label. */
  lemma DecodesExactlyRecords(buffer: seq<Byte>)
    ensures Decoded(buffer).Some? <==> exists userLabel :: BeginsWith(buffer, userLabel)
    ensures forall userLabel :: BeginsWith(buffer, userLabel) ==> Decoded(buffer) == Some(Cut(userLabel))
  {
    if Decoded(buffer).Some? {
      var userLabel := Recovered(buffer);
    }
    forall userLabel | BeginsWith(buffer, userLabel)
      ensures Decoded(buffer) == Some(Cut(userLabel))
    {
      RecordRoundTrip(userLabel, buffer);
    }
  }

  // ---- NUL-terminated buffers

  function UpToNul(s: seq<Byte>): seq<Byte> {
    UpTo(0, s)
  }

  function Truncated(s: seq<Byte>, max: nat): seq<Byte> {
    if |s| <= max then s else s[..max]
  }

  /** What a reader sees of a label that went through the iterator's two buffers. */
  function Shown(userLabel: Label): Label {
    Label(UpToNul(Truncated(userLabel.name, MAX_LABEL_NAME_LENGTH)), UpToNul(Truncated(userLabel.value, MAX_LABEL_VALUE_LENGTH)))
  }

  lemma {:induction false} UpToIsPrefix(stop: Byte, s: seq<Byte>)
    ensures UpTo(stop, s) <= s && (UpTo(stop, s) == s <==> stop !in s)
    ensures stop !in UpTo(stop, s) && (|UpTo(stop, s)| < |s| ==> s[|UpTo(stop, s)|] == stop)
  {
    if s == [] {
    } else {
      UpToIsPrefix(stop, s[1..]);
      assert s == [s[0]] + s[1..];
    }
  }

  lemma {:induction false} UpToWithin(stop: Byte, s: seq<Byte>, k: nat)
    requires k < |s| && s[k] == stop
    ensures UpTo(stop, s) == UpTo(stop, s[..k])
  {
    if k > 0 && s[0] != stop {
      assert s[1..][..k - 1] == s[..k][1..];
      UpToWithin(stop, s[1..], k - 1);
    }
  }

  /** A label reads back as it was stored exactly if both strings are within their limits and hold neither
      a NUL nor a separator. */
  predicate Showable(userLabel: Label) {
    && |userLabel.name| <= MAX_LABEL_NAME_LENGTH && |userLabel.value| <= MAX_LABEL_VALUE_LENGTH
    && 0 !in userLabel.name && 0 !in userLabel.value
    && SEPARATOR !in userLabel.name && SEPARATOR !in userLabel.value
  }

  lemma StringShownExactly(s: seq<Byte>, max: nat)
    ensures UpToNul(Truncated(UpTo(SEPARATOR, s), max)) == s <==> |s| <= max && 0 !in s && SEPARATOR !in s
  {
    UpToIsPrefix(SEPARATOR, s);
    var before := UpTo(SEPARATOR, s);
    UpToIsPrefix(0, Truncated(before, max));
    if |before| == |s| {
      assert before == s;
    }
  }

  /** What a reader gets for a string of any length and content: what comes before its first separator or NUL, at
      most 16 bytes. */
  predicate ReadsAs(s: seq<Byte>, read: seq<Byte>) {
    && read <= s && |read| <= 16 && 0 !in read && 0x1F !in read
    && (|read| == |s| || |read| == 16 || s[|read|] == 0 || s[|read|] == 0x1F)
  }

  lemma StringReadsAs(s: seq<Byte>)
    ensures ReadsAs(s, UpToNul(Truncated(UpTo(SEPARATOR, s), 16)))
  {
    var before := UpTo(SEPARATOR, s);
    UpToIsPrefix(SEPARATOR, s);
    UpToIsPrefix(0, Truncated(before, 16));
    var read := UpToNul(Truncated(before, 16));
    assert read <= before;
    assert forall i :: 0 <= i < |read| ==> read[i] == before[i];
  }

  lemma ShownExactly(userLabel: Label)
    ensures Shown(Cut(userLabel)) == userLabel <==> Showable(userLabel)
  {
    StringShownExactly(userLabel.name, MAX_LABEL_NAME_LENGTH);
    StringShownExactly(userLabel.value, MAX_LABEL_VALUE_LENGTH);
  }

  method CopyString(destination: array<Byte>, source: seq<Byte>)
    requires destination.Length > 0
    modifies destination
    ensures UpToNul(destination[..]) == UpToNul(Truncated(source, destination.Length - 1))
    ensures 0 in destination[..]
  {
    var n := if |source| <= destination.Length - 1 then |source| else destination.Length - 1;
    for i := 0 to n
      invariant destination[..i] == source[..i]
    {
      destination[i] := source[i];
    }
    destination[n] := 0;
    assert destination[..][..n] == source[..n] == Truncated(source, destination.Length - 1);
    UpToWithin(0, destination[..], n);
    assert destination[..][n] == 0;
  }

  lemma {:induction false} UpToFirstNul(s: seq<Byte>, k: nat)
    requires k < |s| && s[k] == 0 && forall j :: 0 <= j < k ==> s[j] != 0
    ensures UpToNul(s) == s[..k]
  {
    if k == 0 {
    } else {
      UpToFirstNul(s[1..], k - 1);
      assert s[..k] == [s[0]] + s[1..][..k - 1];
    }
  }

  method FromCharString(buffer: array<Byte>) returns (s: seq<Byte>)
    requires 0 in buffer[..]
    ensures s == UpToNul(buffer[..])
  {
    ghost var nul :| 0 <= nul < buffer.Length && buffer[nul] == 0;
    var i := 0;
    while buffer[i] != 0
      invariant 0 <= i <= nul && forall j :: 0 <= j < i ==> buffer[j] != 0
      decreases nul - i
    {
      i := i + 1;
    }
    UpToFirstNul(buffer[..], i);
    s := buffer[..i];
  }

  // ---- Storage and what it denotes

  type Labels = map<(nat, nat), seq<Byte>>  // by endpoint and index

  /** The read buffer: the stored record, then whatever the stack held. */
  function ReadBuffer(stored: seq<Byte>, noise: nat -> Byte): seq<Byte>
    requires |stored| <= TLV_MAX_SIZE
  {
    stored + seq<Byte>(TLV_MAX_SIZE - |stored|, i requires i >= 0 => noise(i))
  }

  function Fetched(labels: Labels, endpoint: nat, index: nat, noise: nat -> Byte): Option<Label> {
    if (endpoint, index) !in labels || |labels[(endpoint, index)]| > TLV_MAX_SIZE then None else
    var decoded := Decoded(ReadBuffer(labels[(endpoint, index)], noise));
    if decoded.None? then None else Some(Shown(decoded.value))
  }

  /** The labels of an endpoint as a reader fetches them, by index. */
  function FetchFrom(labels: Labels, endpoint: nat, noise: nat -> Byte): nat -> Option<Label> {
    (index: nat) => Fetched(labels, endpoint, index, noise)
  }

  /** What an iteration yields from `index` on: up to the first record it cannot read. */
  function Walk(fetch: nat -> Option<Label>, index: nat, total: nat): seq<Label>
    decreases total - index
  {
    if index >= total || index >= 0x1_0000_0000 || fetch(index).None? then []
    else [fetch(index).value] + Walk(fetch, index + 1, total)
  }

  function Iterated(labels: Labels, endpoint: nat, index: nat, total: nat, noise: nat -> Byte): seq<Label> {
    Walk(FetchFrom(labels, endpoint, noise), index, total)
  }

  /** One call of the record writer: the piece is refused if it does not fit the buffer. */
  method Append(buf: seq<Byte>, piece: seq<Byte>) returns (ok: bool, longer: seq<Byte>)
    ensures ok <==> |buf| + |piece| <= TLV_MAX_SIZE
    ensures longer == if ok then buf + piece else buf
  {
    if |buf| + |piece| > TLV_MAX_SIZE {
      return false, buf;
    }
    return true, buf + piece;
  }

  class DeviceInfoProvider {
    var labels: Labels
    var lengths: map<nat, nat>
    /** Which strings the SDK's writer takes: all, or, depending on its configuration, those in UTF-8. */
    const acceptsString: seq<Byte> -> bool

    constructor (acceptsString: seq<Byte> -> bool)
      ensures labels == map[] && lengths == map[] && this.acceptsString == acceptsString
    {
      labels, lengths := map[], map[];
      this.acceptsString := acceptsString;
    }

    /** The writer takes both strings and the record fits its buffer. */
    predicate Writes(userLabel: Label) {
      acceptsString(userLabel.name) && acceptsString(userLabel.value) && Fits(userLabel)
    }

    method SetUserLabelLength(endpoint: nat, length: nat)
      modifies this`lengths
      ensures lengths == old(lengths)[endpoint := length]
    {
      lengths := lengths[endpoint := length];
    }

    /** Writes the record piece by piece; a piece that does not fit, or is refused, fails the call. */
    method SetUserLabelAt(endpoint: nat, index: nat, userLabel: Label) returns (ok: bool)
      modifies this`labels
      ensures ok <==> index < 0x1_0000_0000 && Writes(userLabel)
      ensures ok <==>
              && index < 0x1_0000_0000 && acceptsString(userLabel.name) && acceptsString(userLabel.value)
              && |userLabel.name| + |userLabel.value| <= 34
      ensures labels == if ok then old(labels)[(endpoint, index) := Encoded(userLabel)] else old(labels)
    {
      if index >= 0x1_0000_0000 {
        return false;
      }
      var ok0, buf0 := Append([], [STRUCTURE]);
      if !ok0 {
        return false;
      }
      if !acceptsString(userLabel.name) {
        return false;
      }
      var ok1, buf1 := Append(buf0, StringElement(NAME_TAG, userLabel.name));
      if !ok1 {
        return false;
      }
      if !acceptsString(userLabel.value) {
        return false;
      }
      var ok2, buf2 := Append(buf1, StringElement(VALUE_TAG, userLabel.value));
      if !ok2 {
        return false;
      }
      var ok3, buf3 := Append(buf2, [END_OF_CONTAINER]);
      if !ok3 {
        return false;
      }
      assert buf0 == [STRUCTURE];
      assert buf3 == Encoded(userLabel);
      labels := labels[(endpoint, index) := buf3];
      return true;
    }

    method DeleteUserLabelAt(endpoint: nat, index: nat)
      modifies this`labels
      ensures labels == old(labels) - {(endpoint, index)}
    {
      labels := labels - {(endpoint, index)};
    }
  }

  class UserLabelIterator {
    const mProvider: DeviceInfoProvider
    const mEndpoint: nat
    const mTotal: nat
    const mUserLabelNameBuf: array<Byte>
    const mUserLabelValueBuf: array<Byte>
    var mIndex: nat

    ghost predicate Valid() {
      && mUserLabelNameBuf.Length == MAX_LABEL_NAME_LENGTH + 1
      && mUserLabelValueBuf.Length == MAX_LABEL_VALUE_LENGTH + 1
      && mUserLabelNameBuf != mUserLabelValueBuf
    }

    /** What is still to come. */
    ghost function Remaining(noise: nat -> Byte): seq<Label>
      reads this, mProvider
    {
      Iterated(mProvider.labels, mEndpoint, mIndex, mTotal, noise)
    }

    constructor (provider: DeviceInfoProvider, endpoint: nat)
      ensures Valid() && fresh(mUserLabelNameBuf) && fresh(mUserLabelValueBuf)
      ensures mProvider == provider && mEndpoint == endpoint && mIndex == 0
      ensures mTotal == if endpoint in provider.lengths then provider.lengths[endpoint] else 0
    {
      mProvider, mEndpoint, mIndex := provider, endpoint, 0;
      mTotal := if endpoint in provider.lengths then provider.lengths[endpoint] else 0;
      mUserLabelNameBuf := new Byte[MAX_LABEL_NAME_LENGTH + 1](_ => 0);
      mUserLabelValueBuf := new Byte[MAX_LABEL_VALUE_LENGTH + 1](_ => 0);
    }

    /** Copies both strings into the buffers of the iterator and hands out what the buffers hold. */
    method Show(decoded: Label) returns (output: Label)
      requires Valid()
      modifies mUserLabelNameBuf, mUserLabelValueBuf
      ensures output == Shown(decoded)
    {
      CopyString(mUserLabelNameBuf, decoded.name);
      CopyString(mUserLabelValueBuf, decoded.value);
      var name := FromCharString(mUserLabelNameBuf);
      var value := FromCharString(mUserLabelValueBuf);
      output := Label(name, value);
    }

    method Next(noise: nat -> Byte) returns (ok: bool, output: Label)
      requires Valid()
      modifies this`mIndex, mUserLabelNameBuf, mUserLabelValueBuf
      ensures ok <==> old(Remaining(noise)) != []
      ensures ok ==> [output] + Remaining(noise) == old(Remaining(noise)) && mIndex == old(mIndex) + 1 <= mTotal
      ensures !ok ==> mIndex == old(mIndex)
    {
      output := Label([], []);
      if mIndex >= mTotal || mIndex >= 0x1_0000_0000 {
        return false, output;
      }
      var key := (mEndpoint, mIndex);
      if key !in mProvider.labels || |mProvider.labels[key]| > TLV_MAX_SIZE {
        return false, output;
      }
      var decoded := Decoded(ReadBuffer(mProvider.labels[key], noise));
      if decoded.None? {
        return false, output;
      }
      output := Show(decoded.value);
      mIndex := mIndex + 1;
      return true, output;
    }
  }

  lemma Shifted(read: seq<Label>, next: Label, rest: seq<Label>)
    ensures read + ([next] + rest) == (read + [next]) + rest
  {
  }

  /** A caller's loop, the one a reader of the cluster runs; it ends after at most the stored total of labels. */
  method ReadAll(provider: DeviceInfoProvider, endpoint: nat, noise: nat -> Byte) returns (read: seq<Label>)
    ensures var total := if endpoint in provider.lengths then provider.lengths[endpoint] else 0;
      read == Iterated(provider.labels, endpoint, 0, total, noise)
  {
    var walk := new UserLabelIterator(provider, endpoint);
    ghost var labels, total := provider.labels, walk.mTotal;
    ghost var whole := Iterated(labels, endpoint, 0, total, noise);
    read := [];
    var more := true;
    while more
      invariant walk.Valid() && fresh(walk) && fresh(walk.mUserLabelNameBuf) && fresh(walk.mUserLabelValueBuf)
      invariant walk.mProvider == provider && walk.mEndpoint == endpoint && walk.mTotal == total
      invariant walk.mIndex <= total && provider.labels == labels
      invariant read + walk.Remaining(noise) == whole
      invariant !more ==> walk.Remaining(noise) == []
      decreases more, total - walk.mIndex
    {
      var ok, userLabel := walk.Next(noise);
      if ok {
        Shifted(read, userLabel, walk.Remaining(noise));
        read := read + [userLabel];
      }
      more := ok;
    }
  }

  // ---- What that means

  /** The labels are stored for an endpoint, one record each. */
  ghost predicate Stores(labels: Labels, endpoint: nat, stored: seq<Label>) {
    forall i :: 0 <= i < |stored| ==>
      (endpoint, i) in labels && labels[(endpoint, i)] == Encoded(stored[i]) && |Encoded(stored[i])| <= TLV_MAX_SIZE
  }

  lemma FetchedStored(labels: Labels, endpoint: nat, stored: seq<Label>, i: nat, noise: nat -> Byte)
    requires Stores(labels, endpoint, stored) && i < |stored|
    ensures Fetched(labels, endpoint, i, noise) == Some(Shown(Cut(stored[i])))
  {
    RecordRoundTrip(stored[i], ReadBuffer(Encoded(stored[i]), noise));
  }

  /** Each stored label as a reader sees it. */
  function AllShown(stored: seq<Label>): seq<Label> {
    if stored == [] then [] else [Shown(Cut(stored[0]))] + AllShown(stored[1..])
  }

  lemma {:induction false} IteratedStored(labels: Labels, endpoint: nat, stored: seq<Label>, index: nat, noise: nat -> Byte)
    requires Stores(labels, endpoint, stored) && index <= |stored| <= 0x1_0000_0000
    ensures Iterated(labels, endpoint, index, |stored|, noise) == AllShown(stored[index..])
    decreases |stored| - index
  {
    if index == |stored| {
    } else {
      FetchedStored(labels, endpoint, stored, index, noise);
      IteratedStored(labels, endpoint, stored, index + 1, noise);
      assert stored[index..][1..] == stored[index + 1..];
    }
  }

  lemma {:induction false} AllReadAs(stored: seq<Label>, i: nat)
    requires i < |stored|
    ensures |AllShown(stored)| == |stored|
    ensures ReadsAs(stored[i].name, AllShown(stored)[i].name) && ReadsAs(stored[i].value, AllShown(stored)[i].value)
  {
    if i == 0 {
      StringReadsAs(stored[0].name);
      StringReadsAs(stored[0].value);
      AllShownLength(stored);
    } else {
      AllReadAs(stored[1..], i - 1);
    }
  }

  lemma {:induction false} AllShownLength(stored: seq<Label>)
    ensures |AllShown(stored)| == |stored|
  {
    if stored == [] {
    } else {
      AllShownLength(stored[1..]);
    }
  }

  lemma {:induction false} AllShownExactly(stored: seq<Label>)
    ensures AllShown(stored) == stored <==> forall i :: 0 <= i < |stored| ==> Showable(stored[i])
  {
    if stored == [] {
    } else {
      ShownExactly(stored[0]);
      AllShownExactly(stored[1..]);
      assert stored == [stored[0]] + stored[1..];
      assert AllShown(stored)[0] == Shown(Cut(stored[0])) && AllShown(stored)[1..] == AllShown(stored[1..]);
      if Showable(stored[0]) && forall i :: 0 <= i < |stored[1..]| ==> Showable(stored[1..][i]) {
        forall i | 0 <= i < |stored|
          ensures Showable(stored[i])
        {
          if i > 0 {
            assert Showable(stored[1..][i - 1]);
          }
        }
      }
    }
  }

  /** Iterating yields the stored labels in order, whatever bytes follow the records in the read buffer,
      exactly if every string is within its limit and holds neither a NUL nor a separator. */
  lemma LabelRoundTrip(labels: Labels, endpoint: nat, stored: seq<Label>, noise: nat -> Byte)
    requires Stores(labels, endpoint, stored) && |stored| <= 0x1_0000_0000
    ensures Iterated(labels, endpoint, 0, |stored|, noise) == stored <==> forall i :: 0 <= i < |stored| ==> Showable(stored[i])
  {
    IteratedStored(labels, endpoint, stored, 0, noise);
    assert stored[0..] == stored;
    AllShownExactly(stored);
  }

  /** Labels also read back when they are too long or hold a NUL or a separator: each string as far as a reader
      gets. */
  lemma LabelsReadAs(labels: Labels, endpoint: nat, stored: seq<Label>, noise: nat -> Byte)
    requires Stores(labels, endpoint, stored) && |stored| <= 0x1_0000_0000
    ensures var read := Iterated(labels, endpoint, 0, |stored|, noise);
      && |read| == |stored|
      && forall i :: 0 <= i < |stored| ==> ReadsAs(stored[i].name, read[i].name) && ReadsAs(stored[i].value, read[i].value)
  {
    IteratedStored(labels, endpoint, stored, 0, noise);
    assert stored[0..] == stored;
    AllShownLength(stored);
    forall i | 0 <= i < |stored|
      ensures ReadsAs(stored[i].name, AllShown(stored)[i].name) && ReadsAs(stored[i].value, AllShown(stored)[i].value)
    {
      AllReadAs(stored, i);
    }
  }

  lemma {:induction false} WalkStops(fetch: nat -> Option<Label>, index: nat, total: nat)
    requires index <= total <= 0x1_0000_0000
    ensures var yielded := Walk(fetch, index, total);
      && index + |yielded| <= total
      && (forall i :: 0 <= i < |yielded| ==> fetch(index + i) == Some(yielded[i]))
      && (index + |yielded| < total ==> fetch(index + |yielded|).None?)
    decreases total - index
  {
    if index == total || fetch(index).None? {
    } else {
      WalkStops(fetch, index + 1, total);
      var yielded, rest := Walk(fetch, index, total), Walk(fetch, index + 1, total);
      forall i | 0 <= i < |yielded|
        ensures fetch(index + i) == Some(yielded[i])
      {
        if i > 0 {
          assert fetch(index + 1 + (i - 1)) == Some(rest[i - 1]);
        }
      }
    }
  }

  /** What an iteration has yielded: the labels that can be fetched, in order, up to the first that cannot, or
      the stored total. */
  ghost predicate UpToFirstUnreadable(fetch: nat -> Option<Label>, total: nat, yielded: seq<Label>) {
    && |yielded| <= total
    && (forall i :: 0 <= i < |yielded| ==> fetch(i) == Some(yielded[i]))
    && (|yielded| < total ==> fetch(|yielded|).None?)
  }

  lemma {:induction false} WalkWithin(fetch: nat -> Option<Label>, index: nat, total: nat)
    requires index <= 0x1_0000_0000 <= total
    ensures Walk(fetch, index, total) == Walk(fetch, index, 0x1_0000_0000)
    decreases 0x1_0000_0000 - index
  {
    if index == 0x1_0000_0000 {
    } else {
      WalkWithin(fetch, index + 1, total);
    }
  }

  /** An index has 32 bits. */
  function Reachable(total: nat): nat {
    if total <= 0x1_0000_0000 then total else 0x1_0000_0000
  }

  lemma WalkIsUpToFirst(fetch: nat -> Option<Label>, total: nat)
    ensures UpToFirstUnreadable(fetch, Reachable(total), Walk(fetch, 0, total))
  {
    if total > 0x1_0000_0000 {
      WalkWithin(fetch, 0, total);
    }
    WalkStops(fetch, 0, Reachable(total));
    forall i | 0 <= i < |Walk(fetch, 0, total)|
      ensures fetch(i) == Some(Walk(fetch, 0, total)[i])
    {
      assert fetch(0 + i) == Some(Walk(fetch, 0, total)[i]);
    }
  }

  /** Iteration yields readable records in order and stops at the first it cannot read, or after the
      stored total, or after 2^32 records. */
  lemma StopsAtFirstUnreadable(labels: Labels, endpoint: nat, total: nat, noise: nat -> Byte)
    ensures UpToFirstUnreadable(FetchFrom(labels, endpoint, noise), Reachable(total),
                                Iterated(labels, endpoint, 0, total, noise))
  {
    WalkIsUpToFirst(FetchFrom(labels, endpoint, noise), total);
  }

  // ---- From the writer to the reader

  lemma EncodedSize(userLabel: Label)
    ensures |Encoded(userLabel)| == |userLabel.name| + |userLabel.value| + 8
    ensures Showable(userLabel) ==> Fits(userLabel)
  {
  }

  /** The records of all other endpoints are the same. */
  ghost predicate SameElsewhere(labels: Labels, labels': Labels, endpoint: nat) {
    forall key: (nat, nat) :: key.0 != endpoint ==>
      (key in labels <==> key in labels') && (key in labels ==> labels[key] == labels'[key])
  }

  /** Storage after the records of `list` have been written. */
  function WithRecords(labels: Labels, endpoint: nat, list: seq<Label>): Labels {
    if list == [] then labels else
      var last := |list| - 1;
      WithRecords(labels, endpoint, list[..last])[(endpoint, last) := Encoded(list[last])]
  }

  lemma {:induction false} RecordsStored(labels: Labels, endpoint: nat, list: seq<Label>, i: nat)
    requires i < |list|
    ensures var after := WithRecords(labels, endpoint, list);
      (endpoint, i) in after && after[(endpoint, i)] == Encoded(list[i])
    decreases |list|
  {
    if i == |list| - 1 {
    } else {
      RecordsStored(labels, endpoint, list[..|list| - 1], i);
    }
  }

  lemma {:induction false} RecordsElsewhere(labels: Labels, endpoint: nat, list: seq<Label>)
    ensures SameElsewhere(WithRecords(labels, endpoint, list), labels, endpoint)
    decreases |list|
  {
    if list == [] {
    } else {
      RecordsElsewhere(labels, endpoint, list[..|list| - 1]);
    }
  }

  lemma RecordsAreStores(labels: Labels, endpoint: nat, list: seq<Label>)
    requires forall i :: 0 <= i < |list| ==> Fits(list[i])
    ensures Stores(WithRecords(labels, endpoint, list), endpoint, list)
  {
    forall i | 0 <= i < |list|
      ensures var after := WithRecords(labels, endpoint, list);
        (endpoint, i) in after && after[(endpoint, i)] == Encoded(list[i]) && |Encoded(list[i])| <= TLV_MAX_SIZE
    {
      RecordsStored(labels, endpoint, list, i);
      EncodedSize(list[i]);
    }
  }

  /** A caller's loop, which is not part of DeviceInfoProviderImpl.cpp: stores a record for each label, then
      their number. A label that is refused stops it. */
  method WriteAll(provider: DeviceInfoProvider, endpoint: nat, list: seq<Label>) returns (ok: bool)
    modifies provider
    ensures ok <==> |list| <= 0x1_0000_0000 && forall i :: 0 <= i < |list| ==> provider.Writes(list[i])
    ensures ok <==>
            |list| <= 0x1_0000_0000
            && forall i :: 0 <= i < |list| ==>
                 && provider.acceptsString(list[i].name) && provider.acceptsString(list[i].value)
                 && |list[i].name| + |list[i].value| <= 34
    ensures ok ==> Stores(provider.labels, endpoint, list) && provider.lengths == old(provider.lengths)[endpoint := |list|]
    ensures !ok ==> provider.lengths == old(provider.lengths)
    ensures SameElsewhere(provider.labels, old(provider.labels), endpoint)
  {
    for i := 0 to |list|
      invariant i <= 0x1_0000_0000 && provider.lengths == old(provider.lengths)
      invariant forall j :: 0 <= j < i ==> provider.Writes(list[j])
      invariant provider.labels == WithRecords(old(provider.labels), endpoint, list[..i])
    {
      var written := provider.SetUserLabelAt(endpoint, i, list[i]);
      if !written {
        RecordsElsewhere(old(provider.labels), endpoint, list[..i]);
        return false;
      }
      assert list[..i + 1][..i] == list[..i];
    }
    assert list[..|list|] == list;
    RecordsElsewhere(old(provider.labels), endpoint, list);
    RecordsAreStores(old(provider.labels), endpoint, list);
    provider.SetUserLabelLength(endpoint, |list|);
    return true;
  }

  /** From the writer to the reader: a list is written exactly if the SDK's writer takes its strings and no two
      strings of a label have more than 34 bytes together. Then every label reads back, each string as far as a
      reader gets, and the list reads back as it was exactly if every label can be shown. */
  method WriteThenRead(provider: DeviceInfoProvider, endpoint: nat, list: seq<Label>, noise: nat -> Byte)
    returns (ok: bool, read: seq<Label>)
    modifies provider
    ensures ok <==>
            |list| <= 0x1_0000_0000
            && forall i :: 0 <= i < |list| ==>
                 && provider.acceptsString(list[i].name) && provider.acceptsString(list[i].value)
                 && |list[i].name| + |list[i].value| <= 34
    ensures ok ==> |read| == |list|
    ensures ok ==> forall i :: 0 <= i < |list| ==>
              ReadsAs(list[i].name, read[i].name) && ReadsAs(list[i].value, read[i].value)
    ensures ok ==> (read == list <==> forall i :: 0 <= i < |list| ==> Showable(list[i]))
    ensures |list| <= 0x1_0000_0000
            && (forall i :: 0 <= i < |list| ==>
                  Showable(list[i]) && provider.acceptsString(list[i].name) && provider.acceptsString(list[i].value))
            ==> ok && read == list
  {
    read := [];
    ok := WriteAll(provider, endpoint, list);
    if ok {
      read := ReadAll(provider, endpoint, noise);
      LabelsReadAs(provider.labels, endpoint, list, noise);
      LabelRoundTrip(provider.labels, endpoint, list, noise);
    }
  }
}
