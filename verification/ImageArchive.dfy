/**
 Saving an image to a stream and restoring it: the archive, then for every object a header
 with its hash and length followed by its data. Headers and archive are coded by a
 self-delimiting codec whose encoding may depend on how many headers went before; data is
 raw.
 */
module ImageArchive {
  newtype Byte = x: int | 0 <= x < 256

  type Bytes = seq<Byte>

  type Hash = Bytes

  datatype Header = Header(hash: Hash, length: nat)

  datatype Object = Object(hash: Hash, data: Bytes)

  /** The outcome of decoding: the stream ended before it, is malformed, or gave a value. */
  datatype Decoded<+T> = Eof | Malformed | Got(value: T, rest: Bytes)

  datatype Codec = Codec(
    encodeArchive: Bytes -> Bytes,
    decodeArchive: Bytes -> Decoded<Bytes>,
    encodeHeader: (nat, Header) -> Bytes,
    decodeHeader: (nat, Bytes) -> Decoded<Header>)

  /** What the codec must do: decode what it encoded, whatever follows, and notice a truncation. */
  ghost predicate SelfDelimiting(c: Codec) {
    && (forall a, rest :: c.decodeArchive(c.encodeArchive(a) + rest) == Got(a, rest))
    && (forall n, h, rest :: c.decodeHeader(n, c.encodeHeader(n, h) + rest) == Got(h, rest))
    && (forall n, b :: c.decodeHeader(n, b).Eof? <==> b == [])
    && (forall n, b :: c.decodeHeader(n, b).Got? ==> |c.decodeHeader(n, b).rest| < |b|)
    && (forall n, h, b :: b < c.encodeHeader(n, h) ==> !c.decodeHeader(n, b).Got?)
    && (forall a, b :: b < c.encodeArchive(a) ==> !c.decodeArchive(b).Got?)
  }

  // ---------------------------------------------------------------- Saving

  /** The objects in order of their first occurrence. */
  function Dedup(refs: seq<Hash>): seq<Hash> {
    if refs == [] then [] else
    var d, h := Dedup(refs[..|refs| - 1]), refs[|refs| - 1];
    if h in d then d else d + [h]
  }

  function Frame(c: Codec, n: nat, o: Object): Bytes {
    c.encodeHeader(n, Header(o.hash, |o.data|)) + o.data
  }

  /** The framed objects, the first of them the n-th of its stream. */
  function Frames(c: Codec, n: nat, objects: seq<Object>): Bytes
    decreases |objects|
  {
    if objects == [] then [] else Frame(c, n, objects[0]) + Frames(c, n + 1, objects[1..])
  }

  function Stream(c: Codec, archive: Bytes, objects: seq<Object>): Bytes {
    c.encodeArchive(archive) + Frames(c, 0, objects)
  }

  /** What the object server hands out for a list of hashes. */
  function Fetched(l: seq<Hash>, fetch: Hash -> Bytes): seq<Object> {
    seq(|l|, i requires 0 <= i < |l| => Object(l[i], fetch(l[i])))
  }

  lemma {:induction false} FramesAppend(c: Codec, n: nat, l: seq<Object>, o: Object)
    ensures Frames(c, n, l + [o]) == Frames(c, n, l) + Frame(c, n + |l|, o)
    decreases |l|
  {
    if l == [] {
      assert [o][1..] == [];
    } else {
      FramesAppend(c, n + 1, l[1..], o);
      assert (l + [o])[1..] == l[1..] + [o];
    }
  }

  method ListObjects(refs: seq<Hash>) returns (objectsList: seq<Hash>)
    ensures objectsList == Dedup(refs)
  {
    objectsList := [];
    var objectsMap: set<Hash> := {};
    for i := 0 to |refs|
      invariant objectsList == Dedup(refs[..i]) && forall h :: h in objectsMap <==> h in objectsList
    {
      assert refs[..i + 1][..i] == refs[..i];
      if refs[i] !in objectsMap {
        objectsMap := objectsMap + {refs[i]};
        objectsList := objectsList + [refs[i]];
      }
    }
    assert refs[..|refs|] == refs;
  }

  lemma SaveOneMore(c: Codec, archive: Bytes, l: seq<Hash>, fetch: Hash -> Bytes, i: nat)
    requires i < |l|
    ensures Stream(c, archive, Fetched(l[..i + 1], fetch)) ==
      Stream(c, archive, Fetched(l[..i], fetch)) + c.encodeHeader(i, Header(l[i], |fetch(l[i])|)) + fetch(l[i])
  {
    var before, o := Fetched(l[..i], fetch), Object(l[i], fetch(l[i]));
    FramesAppend(c, 0, before, o);
    assert Fetched(l[..i + 1], fetch) == before + [o];
    var a, f, e, d := c.encodeArchive(archive), Frames(c, 0, before), c.encodeHeader(i, Header(o.hash, |o.data|)), o.data;
    assert a + (f + (e + d)) == a + f + e + d;
  }

  method SaveImage(c: Codec, archive: Bytes, refs: seq<Hash>, fetch: Hash -> Bytes) returns (stream: Bytes)
    ensures stream == Stream(c, archive, Fetched(Dedup(refs), fetch))
  {
    stream := c.encodeArchive(archive);
    var objectsList := ListObjects(refs);
    assert stream + [] == stream;
    for i := 0 to |objectsList|
      invariant stream == Stream(c, archive, Fetched(objectsList[..i], fetch))
    {
      SaveOneMore(c, archive, objectsList, fetch, i);
      var data := fetch(objectsList[i]);
      stream := stream + c.encodeHeader(i, Header(objectsList[i], |data|));
      stream := stream + data;
    }
    assert objectsList[..|objectsList|] == objectsList;
  }

  /** Where a hash occurs first. */
  ghost predicate FirstAt(refs: seq<Hash>, h: Hash, i: int) {
    0 <= i < |refs| && refs[i] == h && forall j :: 0 <= j < i ==> refs[j] != h
  }

  /** Every referenced object once, and in order of first occurrence. */
  lemma {:induction false} DedupIsInFirstOrder(refs: seq<Hash>) returns (at: seq<int>)
    ensures forall h :: h in Dedup(refs) <==> h in refs
    ensures |at| == |Dedup(refs)| && forall i :: 0 <= i < |at| ==> FirstAt(refs, Dedup(refs)[i], at[i])
    ensures forall i, j :: 0 <= i < j < |at| ==> at[i] < at[j] && Dedup(refs)[i] != Dedup(refs)[j]
  {
    if refs == [] {
      at := [];
    } else {
      var n := |refs| - 1;
      var front, h := refs[..n], refs[n];
      at := DedupIsInFirstOrder(front);
      assert refs == front + [h];
      forall i | 0 <= i < |at|
        ensures FirstAt(refs, Dedup(front)[i], at[i])
      {
        assert FirstAt(front, Dedup(front)[i], at[i]);
      }
      if h !in Dedup(front) {
        assert forall j :: 0 <= j < n ==> refs[j] == front[j] && front[j] in front;
        assert forall i :: 0 <= i < |at| ==> Dedup(front)[i] in Dedup(front);
        at := at + [n];
      }
    }
  }

  // ---------------------------------------------------------------- Restoring

  datatype Outcome = Done | Broken | Corrupted

  /** What restoring does with the bytes after the archive: how it ends and which data it added. */
  function RestoreObjects(c: Codec, hashOf: Bytes -> Hash, n: nat, b: Bytes): (Outcome, seq<Bytes>)
    requires SelfDelimiting(c)
    decreases |b|
  {
    match c.decodeHeader(n, b)
    case Eof => (Done, [])
    case Malformed => (Broken, [])
    case Got(h, rest) =>
      if |rest| < h.length then (Broken, [])
      else
        var data := rest[..h.length];
        if hashOf(data) != h.hash then (Corrupted, [data])
        else
          Prepend([data], RestoreObjects(c, hashOf, n + 1, rest[h.length..]))
  }

  /** Data added before goes in front. */
  function Prepend(before: seq<Bytes>, r: (Outcome, seq<Bytes>)): (Outcome, seq<Bytes>) {
    (r.0, before + r.1)
  }

  lemma PrependTwice(a: seq<Bytes>, b: seq<Bytes>, r: (Outcome, seq<Bytes>))
    ensures Prepend(a, Prepend(b, r)) == Prepend(a + b, r)
    ensures Prepend([], r) == r
  {
    assert a + (b + r.1) == (a + b) + r.1 && [] + r.1 == r.1;
  }

  /** Restoring a whole stream. */
  function Restored(c: Codec, hashOf: Bytes -> Hash, stream: Bytes): (Outcome, seq<Bytes>)
    requires SelfDelimiting(c)
  {
    var first := c.decodeArchive(stream);
    if first.Got? then RestoreObjects(c, hashOf, 0, first.rest) else (Broken, [])
  }

  method RestoreImage(c: Codec, hashOf: Bytes -> Hash, stream: Bytes)
    returns (outcome: Outcome, archive: Bytes, added: seq<Bytes>)
    requires SelfDelimiting(c)
    ensures (outcome, added) == Restored(c, hashOf, stream)
    ensures c.decodeArchive(stream).Got? ==> archive == c.decodeArchive(stream).value
  {
    archive, added := [], [];
    var first := c.decodeArchive(stream);
    if !first.Got? {
      return Broken, archive, added;
    }
    archive := first.value;
    var reader := first.rest;
    var n := 0;
    PrependTwice([], [], RestoreObjects(c, hashOf, 0, reader));
    while true
      invariant RestoreObjects(c, hashOf, 0, first.rest) == Prepend(added, RestoreObjects(c, hashOf, n, reader))
      decreases |reader|
    {
      var header := c.decodeHeader(n, reader);
      assert added + [] == added;
      if header.Eof? {
        return Done, archive, added;
      } else if header.Malformed? {
        return Broken, archive, added;
      }
      if |header.rest| < header.value.length {
        return Broken, archive, added;
      }
      var data := header.rest[..header.value.length];
      ghost var before := added;
      added := added + [data];
      if hashOf(data) != header.value.hash {
        return Corrupted, archive, added;
      }
      reader, n := header.rest[header.value.length..], n + 1;
      PrependTwice(before, [data], RestoreObjects(c, hashOf, n, reader));
    }
  }

  // ---------------------------------------------------------------- Round trip

  predicate Genuine(hashOf: Bytes -> Hash, o: Object) {
    hashOf(o.data) == o.hash
  }

  ghost predicate AllGenuine(hashOf: Bytes -> Hash, objects: seq<Object>) {
    forall i :: 0 <= i < |objects| ==> Genuine(hashOf, objects[i])
  }

  function DataOf(objects: seq<Object>): seq<Bytes> {
    seq(|objects|, i requires 0 <= i < |objects| => objects[i].data)
  }

  lemma RestoreFrame(c: Codec, hashOf: Bytes -> Hash, n: nat, o: Object, tail: Bytes)
    requires SelfDelimiting(c)
    ensures RestoreObjects(c, hashOf, n, Frame(c, n, o) + tail) ==
      if !Genuine(hashOf, o) then (Corrupted, [o.data])
      else Prepend([o.data], RestoreObjects(c, hashOf, n + 1, tail))
  {
    var h := Header(o.hash, |o.data|);
    var b := Frame(c, n, o) + tail;
    assert b == c.encodeHeader(n, h) + (o.data + tail);
    assert (o.data + tail)[..|o.data|] == o.data && (o.data + tail)[|o.data|..] == tail;
  }

  lemma RestoreOneMore(
    c: Codec, hashOf: Bytes -> Hash, n: nat, objects: seq<Object>, tail: Bytes, r: (Outcome, seq<Bytes>))
    requires SelfDelimiting(c) && objects != [] && Genuine(hashOf, objects[0])
    requires RestoreObjects(c, hashOf, n + 1, Frames(c, n + 1, objects[1..]) + tail) == Prepend(DataOf(objects[1..]), r)
    ensures RestoreObjects(c, hashOf, n, Frames(c, n, objects) + tail) == Prepend(DataOf(objects), r)
  {
    var rest := Frames(c, n + 1, objects[1..]) + tail;
    assert Frames(c, n, objects) + tail == Frame(c, n, objects[0]) + rest;
    RestoreFrame(c, hashOf, n, objects[0], rest);
    PrependTwice([objects[0].data], DataOf(objects[1..]), r);
    assert [objects[0].data] + DataOf(objects[1..]) == DataOf(objects);
  }

  /** Genuine frames n up to m are restored object by object, and restoring goes on behind them. */
  lemma {:induction false} RestoreFrames(
    c: Codec, hashOf: Bytes -> Hash, n: nat, m: nat, objects: seq<Object>, tail: Bytes)
    requires SelfDelimiting(c) && AllGenuine(hashOf, objects)
    requires m == n + |objects|
    ensures RestoreObjects(c, hashOf, n, Frames(c, n, objects) + tail) ==
      Prepend(DataOf(objects), RestoreObjects(c, hashOf, m, tail))
    decreases |objects|
  {
    var r := RestoreObjects(c, hashOf, m, tail);
    if objects == [] {
      PrependTwice([], [], r);
      assert Frames(c, n, objects) + tail == tail && DataOf(objects) == [];
    } else {
      RestoreFrames(c, hashOf, n + 1, m, objects[1..], tail);
      RestoreOneMore(c, hashOf, n, objects, tail, r);
    }
  }

  /** The index of the first object that is not what its hash says. */
  ghost predicate FirstFake(hashOf: Bytes -> Hash, objects: seq<Object>, i: int) {
    && 0 <= i < |objects| && !Genuine(hashOf, objects[i])
    && forall j :: 0 <= j < i ==> Genuine(hashOf, objects[j])
  }

  /**
   Restoring a saved stream: genuine objects all come back in order; otherwise it stops
   with an error at the first object whose data does not have the hash in its header.
   */
  lemma RoundTrip(c: Codec, hashOf: Bytes -> Hash, archive: Bytes, objects: seq<Object>)
    requires SelfDelimiting(c)
    ensures c.decodeArchive(Stream(c, archive, objects)) == Got(archive, Frames(c, 0, objects))
    ensures RestoreObjects(c, hashOf, 0, Frames(c, 0, objects)).0 == Done <==>
      AllGenuine(hashOf, objects)
    ensures AllGenuine(hashOf, objects) ==>
      RestoreObjects(c, hashOf, 0, Frames(c, 0, objects)) == (Done, DataOf(objects))
    ensures forall i :: FirstFake(hashOf, objects, i) ==>
      RestoreObjects(c, hashOf, 0, Frames(c, 0, objects)) == (Corrupted, DataOf(objects[..i + 1]))
  {
    if AllGenuine(hashOf, objects) {
      RestoreFrames(c, hashOf, 0, |objects|, objects, []);
      assert Frames(c, 0, objects) + [] == Frames(c, 0, objects) && DataOf(objects) + [] == DataOf(objects);
    } else {
      var i := FindFake(hashOf, objects);
      forall j | FirstFake(hashOf, objects, j)
        ensures RestoreObjects(c, hashOf, 0, Frames(c, 0, objects)) == (Corrupted, DataOf(objects[..j + 1]))
      {
        StopsAtFake(c, hashOf, objects, j);
      }
    }
  }

  lemma {:induction false} FindFake(hashOf: Bytes -> Hash, objects: seq<Object>) returns (i: int)
    requires exists j :: 0 <= j < |objects| && !Genuine(hashOf, objects[j])
    ensures FirstFake(hashOf, objects, i)
  {
    i := 0;
    while Genuine(hashOf, objects[i])
      invariant 0 <= i < |objects| && forall j :: 0 <= j < i ==> Genuine(hashOf, objects[j])
      decreases |objects| - i
    {
      i := i + 1;
    }
  }

  lemma {:induction false} FramesSplit(c: Codec, n: nat, l: seq<Object>, k: nat)
    requires k <= |l|
    ensures Frames(c, n, l) == Frames(c, n, l[..k]) + Frames(c, n + k, l[k..])
    decreases k
  {
    if k == 0 {
      assert l[0..] == l && Frames(c, n, l[..0]) == [];
    } else {
      FramesSplit(c, n + 1, l[1..], k - 1);
      var front := l[..k];
      assert front[0] == l[0];
      assert front[1..] == l[1..][..k - 1];
      assert l[1..][k - 1..] == l[k..];
    }
  }

  lemma StopsAtFake(c: Codec, hashOf: Bytes -> Hash, objects: seq<Object>, i: nat)
    requires SelfDelimiting(c) && FirstFake(hashOf, objects, i)
    ensures RestoreObjects(c, hashOf, 0, Frames(c, 0, objects)) == (Corrupted, DataOf(objects[..i + 1]))
  {
    var o, tail := objects[i], Frames(c, i, objects[i..]);
    FramesSplit(c, 0, objects, i);
    RestoreFrames(c, hashOf, 0, i, objects[..i], tail);
    RestoreFrame(c, hashOf, i, o, Frames(c, i + 1, objects[i..][1..]));
    assert DataOf(objects[..i]) + [o.data] == DataOf(objects[..i + 1]);
  }

  // ---------------------------------------------------------------- Any bytes

  /** The bytes are headers, each followed by the data it announces, of exactly these objects. */
  ghost predicate Parses(c: Codec, n: nat, b: Bytes, objects: seq<Object>)
    requires SelfDelimiting(c)
    decreases |objects|
  {
    if objects == [] then b == [] else
    var d, o := c.decodeHeader(n, b), objects[0];
    d.Got? && d.value == Header(o.hash, |o.data|) && o.data <= d.rest && Parses(c, n + 1, d.rest[|o.data|..], objects[1..])
  }

  lemma {:induction false} ParsedIsAccepted(c: Codec, hashOf: Bytes -> Hash, n: nat, b: Bytes, objects: seq<Object>)
    requires SelfDelimiting(c) && Parses(c, n, b, objects) && AllGenuine(hashOf, objects)
    ensures RestoreObjects(c, hashOf, n, b) == (Done, DataOf(objects))
    decreases |objects|
  {
    if objects == [] {
      assert DataOf(objects) == [];
    } else {
      var d, o := c.decodeHeader(n, b), objects[0];
      assert d.rest[..|o.data|] == o.data && Genuine(hashOf, o);
      ParsedIsAccepted(c, hashOf, n + 1, d.rest[|o.data|..], objects[1..]);
      assert [o.data] + DataOf(objects[1..]) == DataOf(objects);
    }
  }

  lemma {:induction false} AcceptedParses(c: Codec, hashOf: Bytes -> Hash, n: nat, b: Bytes) returns (objects: seq<Object>)
    requires SelfDelimiting(c) && RestoreObjects(c, hashOf, n, b).0 == Done
    ensures Parses(c, n, b, objects) && AllGenuine(hashOf, objects)
    decreases |b|
  {
    var d := c.decodeHeader(n, b);
    if d.Eof? {
      objects := [];
    } else {
      var data := d.rest[..d.value.length];
      var more := AcceptedParses(c, hashOf, n + 1, d.rest[d.value.length..]);
      objects := [Object(d.value.hash, data)] + more;
      assert objects[1..] == more;
    }
  }

  /** Any bytes are accepted exactly if they are the frames of objects that all have their hash, and then their data is added. */
  lemma AcceptedIff(c: Codec, hashOf: Bytes -> Hash, b: Bytes)
    requires SelfDelimiting(c)
    ensures RestoreObjects(c, hashOf, 0, b).0 == Done <==> exists objects :: Parses(c, 0, b, objects) && AllGenuine(hashOf, objects)
    ensures forall objects :: Parses(c, 0, b, objects) && AllGenuine(hashOf, objects) ==>
      RestoreObjects(c, hashOf, 0, b).1 == DataOf(objects)
  {
    if RestoreObjects(c, hashOf, 0, b).0 == Done {
      var objects := AcceptedParses(c, hashOf, 0, b);
    }
    forall objects | Parses(c, 0, b, objects) && AllGenuine(hashOf, objects)
      ensures RestoreObjects(c, hashOf, 0, b) == (Done, DataOf(objects))
    {
      ParsedIsAccepted(c, hashOf, 0, b, objects);
    }
  }

  // ---------------------------------------------------------------- Truncation

  /** The stream, cut at byte b of the frames, ends exactly behind some object. */
  ghost predicate AtBoundary(c: Codec, objects: seq<Object>, b: nat) {
    exists k :: 0 <= k <= |objects| && b == |Frames(c, 0, objects[..k])|
  }

  lemma CutInFrame(c: Codec, hashOf: Bytes -> Hash, n: nat, o: Object, b: Bytes)
    requires SelfDelimiting(c) && b < Frame(c, n, o) && b != []
    ensures RestoreObjects(c, hashOf, n, b) == (Broken, [])
  {
    var h := Header(o.hash, |o.data|);
    var e := c.encodeHeader(n, h);
    assert Frame(c, n, o) == e + o.data;
    if |b| < |e| {
      assert b < e;
    } else {
      assert b == e + b[|e|..];
    }
  }

  /** Cut at b, the frames lose all behind the first k objects, and the loss shows unless b is their end. */
  ghost predicate CutLeaves(c: Codec, hashOf: Bytes -> Hash, n: nat, objects: seq<Object>, b: nat, k: nat)
    requires SelfDelimiting(c) && b <= |Frames(c, n, objects)|
  {
    && k <= |objects| && |Frames(c, n, objects[..k])| <= b
    && (k < |objects| ==> b < |Frames(c, n, objects[..k + 1])|)
    && RestoreObjects(c, hashOf, n, Frames(c, n, objects)[..b]) ==
       (if b == |Frames(c, n, objects[..k])| then Done else Broken, DataOf(objects[..k]))
  }

  lemma FramesOfFirst(c: Codec, n: nat, objects: seq<Object>, k: nat)
    requires 0 < k <= |objects|
    ensures Frames(c, n, objects[..k]) == Frame(c, n, objects[0]) + Frames(c, n + 1, objects[1..][..k - 1])
    ensures DataOf(objects[..k]) == [objects[0].data] + DataOf(objects[1..][..k - 1])
  {
    var front := objects[..k];
    assert front[0] == objects[0];
    assert front[1..] == objects[1..][..k - 1];
  }

  lemma CutFirstFrame(c: Codec, hashOf: Bytes -> Hash, n: nat, objects: seq<Object>, b: nat)
    requires SelfDelimiting(c) && objects != [] && b < |Frame(c, n, objects[0])|
    ensures b <= |Frames(c, n, objects)| && CutLeaves(c, hashOf, n, objects, b, 0)
  {
    var frame, rest := Frame(c, n, objects[0]), Frames(c, n + 1, objects[1..]);
    assert Frames(c, n, objects) == frame + rest;
    assert (frame + rest)[..b] == frame[..b];
    assert objects[..0] == [];
    FramesOfFirst(c, n, objects, 1);
    if b > 0 {
      CutInFrame(c, hashOf, n, objects[0], frame[..b]);
    }
  }

  lemma CutNoFrames(c: Codec, hashOf: Bytes -> Hash, n: nat)
    requires SelfDelimiting(c)
    ensures CutLeaves(c, hashOf, n, [], 0, 0)
  {
    var none: seq<Object> := [];
    assert none[..0] == none && DataOf(none) == [];
    assert Frames(c, n, none)[..0] == [];
  }

  lemma CutLaterRestores(c: Codec, hashOf: Bytes -> Hash, n: nat, objects: seq<Object>, d: nat)
    requires SelfDelimiting(c) && objects != [] && Genuine(hashOf, objects[0])
    requires d <= |Frames(c, n + 1, objects[1..])|
    ensures |Frame(c, n, objects[0])| + d <= |Frames(c, n, objects)|
    ensures RestoreObjects(c, hashOf, n, Frames(c, n, objects)[..|Frame(c, n, objects[0])| + d]) ==
      Prepend([objects[0].data], RestoreObjects(c, hashOf, n + 1, Frames(c, n + 1, objects[1..])[..d]))
  {
    var frame, rest := Frame(c, n, objects[0]), Frames(c, n + 1, objects[1..]);
    assert Frames(c, n, objects) == frame + rest;
    assert (frame + rest)[..|frame| + d] == frame + rest[..d];
    RestoreFrame(c, hashOf, n, objects[0], rest[..d]);
  }

  lemma CutLaterFrames(c: Codec, hashOf: Bytes -> Hash, n: nat, objects: seq<Object>, d: nat, j: nat)
    requires SelfDelimiting(c) && objects != [] && Genuine(hashOf, objects[0])
    requires d <= |Frames(c, n + 1, objects[1..])| && CutLeaves(c, hashOf, n + 1, objects[1..], d, j)
    ensures |Frame(c, n, objects[0])| + d <= |Frames(c, n, objects)|
    ensures CutLeaves(c, hashOf, n, objects, |Frame(c, n, objects[0])| + d, j + 1)
  {
    CutLaterRestores(c, hashOf, n, objects, d);
    FramesOfFirst(c, n, objects, j + 1);
    if j + 1 < |objects| {
      FramesOfFirst(c, n, objects, j + 2);
    }
  }

  /** Cutting genuine frames anywhere but behind an object is noticed. */
  lemma {:induction false} CutFrames(c: Codec, hashOf: Bytes -> Hash, n: nat, objects: seq<Object>, b: nat)
    returns (k: nat)
    requires SelfDelimiting(c) && AllGenuine(hashOf, objects)
    requires b <= |Frames(c, n, objects)|
    ensures CutLeaves(c, hashOf, n, objects, b, k)
    decreases |objects|
  {
    if objects == [] {
      k := 0;
      CutNoFrames(c, hashOf, n);
    } else if b < |Frame(c, n, objects[0])| {
      k := 0;
      CutFirstFrame(c, hashOf, n, objects, b);
    } else {
      var d := b - |Frame(c, n, objects[0])|;
      var j := CutFrames(c, hashOf, n + 1, objects[1..], d);
      k := j + 1;
      CutLaterFrames(c, hashOf, n, objects, d, j);
    }
  }

  lemma {:induction false} FramesGrow(c: Codec, l: seq<Object>, j: nat, k: nat)
    requires SelfDelimiting(c) && j <= k <= |l|
    ensures |Frames(c, 0, l[..j])| <= |Frames(c, 0, l[..k])|
  {
    FramesSplit(c, 0, l[..k], j);
    assert l[..k][..j] == l[..j];
  }

  lemma CutFramesNoticedIff(c: Codec, hashOf: Bytes -> Hash, objects: seq<Object>, b: nat)
    requires SelfDelimiting(c) && AllGenuine(hashOf, objects) && b <= |Frames(c, 0, objects)|
    ensures RestoreObjects(c, hashOf, 0, Frames(c, 0, objects)[..b]).0 == Done <==> AtBoundary(c, objects, b)
  {
    var k := CutFrames(c, hashOf, 0, objects, b);
    if AtBoundary(c, objects, b) {
      var j :| 0 <= j <= |objects| && b == |Frames(c, 0, objects[..j])|;
      if j < k {
        FramesGrow(c, objects, j, k);
      } else if j > k {
        FramesGrow(c, objects, k + 1, j);
      }
    }
  }

  /** The cut at b falls behind the first k objects, and these are genuine. */
  ghost predicate CutBehind(c: Codec, hashOf: Bytes -> Hash, objects: seq<Object>, b: nat, k: int) {
    0 <= k <= |objects| && b == |Frames(c, 0, objects[..k])| && AllGenuine(hashOf, objects[..k])
  }

  lemma PrefixIsGenuine(hashOf: Bytes -> Hash, objects: seq<Object>, k: nat)
    requires k <= |objects| && AllGenuine(hashOf, objects)
    ensures AllGenuine(hashOf, objects[..k])
  {
    assert forall i :: 0 <= i < k ==> objects[..k][i] == objects[i];
  }

  lemma GenuineEndsBeforeFake(hashOf: Bytes -> Hash, objects: seq<Object>, i: int)
    requires FirstFake(hashOf, objects, i)
    ensures forall k :: 0 <= k <= |objects| && AllGenuine(hashOf, objects[..k]) ==> k <= i
  {
    forall k | i < k <= |objects|
      ensures !AllGenuine(hashOf, objects[..k])
    {
      assert objects[..k][i] == objects[i];
    }
  }

  /** Bytes that start with a false object, or with a part of one, are not accepted. */
  lemma FakeIsNotAccepted(c: Codec, hashOf: Bytes -> Hash, n: nat, objects: seq<Object>, b: Bytes)
    requires SelfDelimiting(c) && objects != [] && !Genuine(hashOf, objects[0])
    requires b != [] && b <= Frames(c, n, objects)
    ensures RestoreObjects(c, hashOf, n, b).0 != Done
  {
    var frame, rest := Frame(c, n, objects[0]), Frames(c, n + 1, objects[1..]);
    assert Frames(c, n, objects) == frame + rest;
    if |b| < |frame| {
      assert b == frame[..|b|];
      CutInFrame(c, hashOf, n, objects[0], b);
    } else {
      assert b == frame + b[|frame|..];
      RestoreFrame(c, hashOf, n, objects[0], b[|frame|..]);
    }
  }

  lemma CutBehindFake(c: Codec, hashOf: Bytes -> Hash, objects: seq<Object>, b: nat, i: nat)
    requires SelfDelimiting(c) && FirstFake(hashOf, objects, i)
    requires |Frames(c, 0, objects[..i])| < b <= |Frames(c, 0, objects)|
    ensures RestoreObjects(c, hashOf, 0, Frames(c, 0, objects)[..b]).0 != Done
  {
    var front, later := Frames(c, 0, objects[..i]), Frames(c, i, objects[i..]);
    FramesSplit(c, 0, objects, i);
    var tail := later[..b - |front|];
    assert (front + later)[..b] == front + tail;
    FakeBehindGenuine(c, hashOf, objects[..i], i, objects[i..], tail);
  }

  lemma FakeBehindGenuine(
    c: Codec, hashOf: Bytes -> Hash, genuine: seq<Object>, i: nat, objects: seq<Object>, tail: Bytes)
    requires SelfDelimiting(c) && AllGenuine(hashOf, genuine) && i == |genuine|
    requires objects != [] && !Genuine(hashOf, objects[0]) && tail != [] && tail <= Frames(c, i, objects)
    ensures RestoreObjects(c, hashOf, 0, Frames(c, 0, genuine) + tail).0 != Done
  {
    FakeIsNotAccepted(c, hashOf, i, objects, tail);
    RestoreFrames(c, hashOf, 0, i, genuine, tail);
  }

  lemma CutBeforeFake(c: Codec, hashOf: Bytes -> Hash, objects: seq<Object>, b: nat, i: nat)
    requires SelfDelimiting(c) && FirstFake(hashOf, objects, i) && b <= |Frames(c, 0, objects[..i])|
    ensures b <= |Frames(c, 0, objects)|
    ensures RestoreObjects(c, hashOf, 0, Frames(c, 0, objects)[..b]).0 == Done <==> AtBoundary(c, objects[..i], b)
  {
    FramesSplit(c, 0, objects, i);
    assert Frames(c, 0, objects)[..b] == Frames(c, 0, objects[..i])[..b];
    CutFramesNoticedIff(c, hashOf, objects[..i], b);
  }

  /** Any frames cut at b are accepted exactly if the cut falls behind some objects that are all genuine. */
  lemma CutFramesAcceptedIff(c: Codec, hashOf: Bytes -> Hash, objects: seq<Object>, b: nat)
    requires SelfDelimiting(c) && b <= |Frames(c, 0, objects)|
    ensures RestoreObjects(c, hashOf, 0, Frames(c, 0, objects)[..b]).0 == Done <==>
      exists k :: CutBehind(c, hashOf, objects, b, k)
  {
    if AllGenuine(hashOf, objects) {
      CutFramesNoticedIff(c, hashOf, objects, b);
      if AtBoundary(c, objects, b) {
        var k :| 0 <= k <= |objects| && b == |Frames(c, 0, objects[..k])|;
        PrefixIsGenuine(hashOf, objects, k);
        assert CutBehind(c, hashOf, objects, b, k);
      }
    } else {
      var i := FindFake(hashOf, objects);
      var front := objects[..i];
      GenuineEndsBeforeFake(hashOf, objects, i);
      forall k | CutBehind(c, hashOf, objects, b, k)
        ensures b <= |Frames(c, 0, front)| && AtBoundary(c, front, b)
      {
        FramesGrow(c, objects, k, i);
        assert front[..k] == objects[..k];
      }
      if b > |Frames(c, 0, front)| {
        CutBehindFake(c, hashOf, objects, b, i);
      } else {
        CutBeforeFake(c, hashOf, objects, b, i);
        if AtBoundary(c, front, b) {
          var k :| 0 <= k <= |front| && b == |Frames(c, 0, front[..k])|;
          PrefixIsGenuine(hashOf, front, k);
          assert front[..k] == objects[..k];
          assert CutBehind(c, hashOf, objects, b, k);
        }
      }
    }
  }

  /**
   A stream of any objects cut short anywhere, also in the archive, is taken for complete
   exactly if the cut falls behind the archive or behind an object, and all objects before it
   have their hash.
   */
  lemma TruncationIsNoticedIff(c: Codec, hashOf: Bytes -> Hash, archive: Bytes, objects: seq<Object>, b: nat)
    requires SelfDelimiting(c) && b <= |Stream(c, archive, objects)|
    ensures Restored(c, hashOf, Stream(c, archive, objects)[..b]).0 == Done <==>
      exists k :: 0 <= k <= |objects| && b == |Stream(c, archive, objects[..k])| && AllGenuine(hashOf, objects[..k])
  {
    var e, frames := c.encodeArchive(archive), Frames(c, 0, objects);
    if b < |e| {
      assert (e + frames)[..b] < e;
    } else {
      var d := b - |e|;
      assert (e + frames)[..b] == e + frames[..d];
      CutFramesAcceptedIff(c, hashOf, objects, d);
      forall k | 0 <= k <= |objects|
        ensures b == |Stream(c, archive, objects[..k])| && AllGenuine(hashOf, objects[..k]) <==>
          CutBehind(c, hashOf, objects, d, k)
      {
      }
    }
  }

  // ---------------------------------------------------------------- A codec

  /** Each byte behind a one, and a zero to end. */
  function Escape(b: Bytes): Bytes {
    if b == [] then [0] else [1, b[0]] + Escape(b[1..])
  }

  function Unescape(b: Bytes): Decoded<Bytes> {
    if b == [] then Eof
    else if b[0] == 0 then Got([], b[1..])
    else if b[0] != 1 || |b| < 2 then Malformed
    else Prefixed(b[1], Unescape(b[2..]))
  }

  function Prefixed(x: Byte, d: Decoded<Bytes>): Decoded<Bytes> {
    if d.Got? then Got([x] + d.value, d.rest) else Malformed
  }

  function Zeros(n: nat): Bytes {
    seq(n, _ => 0)
  }

  function EncodeHeader(h: Header): Bytes {
    Escape(h.hash) + Escape(Zeros(h.length))
  }

  function DecodeHeader(b: Bytes): Decoded<Header> {
    var first := Unescape(b);
    if first.Eof? then Eof
    else if first.Malformed? then Malformed
    else
      var second := Unescape(first.rest);
      if second.Got? then Got(Header(first.value, |second.value|), second.rest) else Malformed
  }

  const SAMPLE_CODEC := Codec(Escape, Unescape, (_, h) => EncodeHeader(h), (_, b) => DecodeHeader(b))

  lemma UnescapeStep(x: Byte, tail: Bytes)
    ensures Unescape([1, x] + tail) == Prefixed(x, Unescape(tail))
  {
    assert ([1, x] + tail)[2..] == tail;
  }

  lemma {:induction false} UnescapeOfEscape(b: Bytes, rest: Bytes)
    ensures Unescape(Escape(b) + rest) == Got(b, rest)
  {
    if b == [] {
      assert ([0] + rest)[1..] == rest;
    } else {
      UnescapeOfEscape(b[1..], rest);
      UnescapeStep(b[0], Escape(b[1..]) + rest);
      assert Escape(b) + rest == [1, b[0]] + (Escape(b[1..]) + rest);
      assert [b[0]] + b[1..] == b;
    }
  }

  lemma {:induction false} UnescapeConsumes(b: Bytes)
    ensures Unescape(b).Got? ==> |Unescape(b).rest| < |b|
  {
    if |b| >= 2 {
      UnescapeConsumes(b[2..]);
    }
  }

  lemma {:induction false} UnescapeNoticesCuts(v: Bytes, b: Bytes)
    requires b < Escape(v)
    ensures !Unescape(b).Got?
  {
    if v != [] && |b| >= 2 {
      assert b[2..] < Escape(v[1..]);
      UnescapeNoticesCuts(v[1..], b[2..]);
    }
  }

  lemma HeaderCutsNoticed(h: Header, b: Bytes)
    requires b < EncodeHeader(h)
    ensures !DecodeHeader(b).Got?
  {
    var e, z := Escape(h.hash), Escape(Zeros(h.length));
    if |b| < |e| {
      assert b < e;
      UnescapeNoticesCuts(h.hash, b);
    } else {
      var tail := b[|e|..];
      assert b == e + tail && tail < z;
      UnescapeOfEscape(h.hash, tail);
      UnescapeNoticesCuts(Zeros(h.length), tail);
    }
  }

  lemma HeaderRoundTrip(h: Header, rest: Bytes)
    ensures DecodeHeader(EncodeHeader(h) + rest) == Got(h, rest)
  {
    var e, z := Escape(h.hash), Escape(Zeros(h.length));
    assert EncodeHeader(h) + rest == e + (z + rest);
    UnescapeOfEscape(h.hash, z + rest);
    UnescapeOfEscape(Zeros(h.length), rest);
  }

  lemma HeaderConsumes(b: Bytes)
    ensures DecodeHeader(b).Eof? <==> b == []
    ensures DecodeHeader(b).Got? ==> |DecodeHeader(b).rest| < |b|
  {
    UnescapeConsumes(b);
    if Unescape(b).Got? {
      UnescapeConsumes(Unescape(b).rest);
    }
  }

  /** The demands on a codec can be met. */
  lemma SampleCodecIsSelfDelimiting()
    ensures SelfDelimiting(SAMPLE_CODEC)
  {
    forall a, rest
      ensures Unescape(Escape(a) + rest) == Got(a, rest)
    {
      UnescapeOfEscape(a, rest);
    }
    forall h: Header, rest: Bytes
      ensures DecodeHeader(EncodeHeader(h) + rest) == Got(h, rest)
    {
      HeaderRoundTrip(h, rest);
    }
    forall b: Bytes
      ensures DecodeHeader(b).Eof? <==> b == []
      ensures DecodeHeader(b).Got? ==> |DecodeHeader(b).rest| < |b|
    {
      HeaderConsumes(b);
    }
    forall h: Header, b: Bytes | b < EncodeHeader(h)
      ensures !DecodeHeader(b).Got?
    {
      HeaderCutsNoticed(h, b);
    }
    forall a: Bytes, b: Bytes | b < Escape(a)
      ensures !Unescape(b).Got?
    {
      UnescapeNoticesCuts(a, b);
    }
  }

  /** It happens: a stream that lost its only object is restored without complaint. */
  lemma LostObjectIsNotNoticed(archive: Bytes, data: Bytes)
    ensures SelfDelimiting(SAMPLE_CODEC)
    ensures var stream := Stream(SAMPLE_CODEC, archive, [Object(data, data)]);
      exists b :: 0 <= b < |stream| && Restored(SAMPLE_CODEC, (x: Bytes) => x, stream[..b]).0 == Done
  {
    SampleCodecIsSelfDelimiting();
    var c, hashOf, objects := SAMPLE_CODEC, (x: Bytes) => x, [Object(data, data)];
    var b := |Stream(c, archive, objects[..0])|;
    FramesOfFirst(c, 0, objects, 1);
    assert objects[..1] == objects && objects[..0] == [];
    assert |c.encodeHeader(0, Header(data, |data|))| > 0;
    assert AllGenuine(hashOf, objects[..0]);
    TruncationIsNoticedIff(c, hashOf, archive, objects, b);
  }
}
