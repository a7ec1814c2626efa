/** What a replayed register says about the events: their number fixed, it determines what was hashed
    for each of them, and that determines name and payload as far as the two event formats allow. */
module EventBinding {
  import opened Common
  import opened RuntimeEvents
  import Utf8

  /** Event `i` of the two logs: different preimages with one digest. */
  ghost predicate PreimagesCollide(h: Hash, json: Json, a: seq<Event>, b: seq<Event>, i: nat) {
    i < |a| && i < |b| && Collision(h, Preimage(json, a[i]), Preimage(json, b[i]))
  }

  ghost predicate SamePreimages(json: Json, a: seq<Event>, b: seq<Event>) {
    |a| == |b| && forall i :: 0 <= i < |a| ==> Preimage(json, a[i]) == Preimage(json, b[i])
  }

  lemma SameInput(h: Hash, json: Json, mr: ByteString, e: Event, mr': ByteString, e': Event, n: nat)
    requires Sized(h, n) && ExtendInput(h, json, mr, e) == ExtendInput(h, json, mr', e')
    ensures mr == mr' && h(Preimage(json, e)) == h(Preimage(json, e'))
  {
    hide Preimage;
    SameTail(mr, h(Preimage(json, e)), mr', h(Preimage(json, e')));
  }

  lemma SamePreimagesMore(json: Json, a: seq<Event>, b: seq<Event>)
    requires a != [] && b != [] && SamePreimages(json, a[..|a| - 1], b[..|b| - 1])
    requires Preimage(json, a[|a| - 1]) == Preimage(json, b[|b| - 1])
    ensures SamePreimages(json, a, b)
  {
    hide Preimage;
    var a', b' := a[..|a| - 1], b[..|b| - 1];
    assert forall i :: 0 <= i < |a'| ==> a'[i] == a[i] && b'[i] == b[i];
  }

  /** Two replays of equally many events with one value: the same preimages, or two extends or two
      preimages, named, collide. */
  lemma {:induction false} ReplaysBind(h: Hash, json: Json, zero: ByteString, a: seq<Event>, b: seq<Event>, n: nat)
    requires Sized(h, n) && |a| == |b| && Replay(h, json, zero, a) == Replay(h, json, zero, b)
    ensures || SamePreimages(json, a, b)
            || (exists i :: ExtendsCollide(h, json, zero, a, b, i))
            || (exists i :: PreimagesCollide(h, json, a, b, i))
    decreases |a|
  {
    hide Preimage;
    if a != [] {
      var k := |a| - 1;
      var a', b' := a[..k], b[..k];
      LastExtend(h, json, zero, a);
      LastExtend(h, json, zero, b);
      if InputAt(h, json, zero, a, k) != InputAt(h, json, zero, b, k) {
        assert ExtendsCollide(h, json, zero, a, b, k);
      } else {
        SameInput(h, json, Replay(h, json, zero, a'), a[k], Replay(h, json, zero, b'), b[k], n);
        ReplaysBind(h, json, zero, a', b', n);
        LiftCollision(h, json, zero, a, b, a', b');
        if Preimage(json, a[k]) != Preimage(json, b[k]) {
          assert PreimagesCollide(h, json, a, b, k);
        } else if SamePreimages(json, a', b') {
          SamePreimagesMore(json, a, b);
        }
      }
    }
  }

  lemma LiftCollision(
    h: Hash, json: Json, zero: ByteString, a: seq<Event>, b: seq<Event>, a': seq<Event>, b': seq<Event>)
    requires |a| == |b| > 0 && a' == a[..|a| - 1] && b' == b[..|b| - 1]
    ensures (exists i :: ExtendsCollide(h, json, zero, a', b', i)) ==>
              exists i :: ExtendsCollide(h, json, zero, a, b, i)
    ensures (exists i :: PreimagesCollide(h, json, a', b', i)) ==> exists i :: PreimagesCollide(h, json, a, b, i)
  {
    hide ExtendsCollide, Preimage;
    if i: nat :| ExtendsCollide(h, json, zero, a', b', i) {
      CollideLater(h, json, zero, a, b, i);
    }
    if i: nat :| PreimagesCollide(h, json, a', b', i) {
      assert PreimagesCollide(h, json, a, b, i);
    }
  }

  // ----- version 1 -----

  const COLON: Byte := 0x3a

  /** The bytes of a version 1 preimage: the event type 0x08000001, and the name and payload behind
      colons. */
  lemma V1Bytes(json: Json, name: string, payload: ByteString)
    ensures Preimage(json, Event(name, payload, V1))
            == [0x01, 0x00, 0x00, 0x08, 0x3a] + (Utf8.Encode(name) + ([0x3a] + payload))
  {
    hide Utf8.Encode;
    TypeBytes();
    var n := Utf8.Encode(name);
    assert [0x01, 0x00, 0x00, 0x08] + [0x3a] + n + [0x3a] + payload
           == [0x01, 0x00, 0x00, 0x08, 0x3a] + (n + ([0x3a] + payload));
  }

  lemma TypeBytes()
    ensures Le(DSTACK_RUNTIME_EVENT_TYPE, 4) == [0x01, 0x00, 0x00, 0x08]
  {
    assert Le(0x08, 1) == [0x08] && Le(0x0800, 2) == [0x00, 0x08] && Le(0x08_0000, 3) == [0x00, 0x00, 0x08];
  }

  predicate NoColon(name: string) {
    ':' !in name
  }

  lemma {:induction false} EncodedNoColon(name: string)
    requires NoColon(name)
    ensures COLON !in Utf8.Encode(name)
  {
    if name != [] {
      assert forall c :: c in name[1..] ==> c in name;
      EncodedNoColon(name[1..]);
    }
  }

  /** The first colon splits a string of bytes in one way. */
  lemma FirstColon(a: ByteString, x: ByteString, b: ByteString, y: ByteString)
    requires COLON !in a && COLON !in b && a + ([COLON] + x) == b + ([COLON] + y)
    ensures a == b && x == y
  {
    var s := a + ([COLON] + x);
    assert s[|a|] == COLON && s[|b|] == COLON;
    assert forall i :: 0 <= i < |a| ==> s[i] == a[i];
    assert forall i :: 0 <= i < |b| ==> s[i] == b[i];
    assert a == s[..|a|] && b == s[..|a|] && x == s[|a| + 1..] && y == s[|a| + 1..];
  }

  /** Version 1 events whose names have no colon: one preimage, one name, one payload. */
  lemma V1Binds(json: Json, name: string, payload: ByteString, name': string, payload': ByteString)
    requires NoColon(name) && NoColon(name')
    requires Preimage(json, Event(name, payload, V1)) == Preimage(json, Event(name', payload', V1))
    ensures name == name' && payload == payload'
  {
    hide Preimage, Utf8.Encode;
    V1Bytes(json, name, payload);
    V1Bytes(json, name', payload');
    SameRest(json, name, payload, name', payload');
    EncodedNoColon(name);
    EncodedNoColon(name');
    FirstColon(Utf8.Encode(name), payload, Utf8.Encode(name'), payload');
    Utf8.Injective(name, name');
  }

  lemma SameRest(json: Json, name: string, payload: ByteString, name': string, payload': ByteString)
    ensures Preimage(json, Event(name, payload, V1)) == Preimage(json, Event(name', payload', V1))
            <==> Utf8.Encode(name) + ([COLON] + payload) == Utf8.Encode(name') + ([COLON] + payload')
  {
    hide Preimage, Utf8.Encode;
    V1Bytes(json, name, payload);
    V1Bytes(json, name', payload');
    var x, y := Utf8.Encode(name) + ([COLON] + payload), Utf8.Encode(name') + ([COLON] + payload');
    var p: ByteString := [0x01, 0x00, 0x00, 0x08, 0x3a];
    assert (p + x)[5..] == x && (p + y)[5..] == y;
  }

  /** With a colon in the name the format is ambiguous. */
  lemma V1Ambiguous(json: Json)
    ensures Preimage(json, Event("a:b", [0x63], V1)) == Preimage(json, Event("a", [0x62, 0x3a, 0x63], V1))
  {
    hide Preimage;
    assert Utf8.Encode("b") == [0x62] && Utf8.Encode(":b") == [0x3a] + Utf8.Encode("b");
    assert Utf8.Encode("a:b") == [0x61] + Utf8.Encode(":b");
    assert Utf8.Encode("a") == [0x61];
    SameRest(json, "a:b", [0x63], "a", [0x62, 0x3a, 0x63]);
  }

  /** No other version 1 event has the preimage of this one. */
  ghost predicate Unambiguous(json: Json, name: string, payload: ByteString) {
    forall name', payload' ::
      Preimage(json, Event(name', payload', V1)) == Preimage(json, Event(name, payload, V1)) ==>
      name' == name && payload' == payload
  }

  /** No colon in the name, and none in the payload behind text that could continue the name. */
  predicate PlainlySplit(name: string, payload: ByteString) {
    && NoColon(name)
    && forall k :: 0 <= k < |payload| && payload[k] == COLON ==> Utf8.Decode(payload[..k]).None?
  }

  /** Exactly these events are unambiguous. */
  lemma V1Exactly(json: Json, name: string, payload: ByteString)
    ensures Unambiguous(json, name, payload) <==> PlainlySplit(name, payload)
  {
    hide Preimage, Utf8.Decode;
    if PlainlySplit(name, payload) {
      forall name', payload' | Preimage(json, Event(name', payload', V1)) == Preimage(json, Event(name, payload, V1))
        ensures name' == name && payload' == payload
      {
        OnlySplit(json, name, payload, name', payload');
      }
    } else if !NoColon(name) {
      var k :| 0 <= k < |name| && name[k] == ':';
      SplitEarlier(json, name, payload, k);
    } else {
      var k :| 0 <= k < |payload| && payload[k] == COLON && Utf8.Decode(payload[..k]).Some?;
      SplitLater(json, name, payload, k);
    }
  }

  lemma {:induction false} EncodeConcat(s: string, t: string)
    ensures Utf8.Encode(s + t) == Utf8.Encode(s) + Utf8.Encode(t)
    decreases |s|
  {
    hide Utf8.EncodeChar;
    if s == [] {
      assert s + t == t;
    } else {
      EncodeConcat(s[1..], t);
      assert (s + t)[1..] == s[1..] + t && (s + t)[0] == s[0];
    }
  }

  lemma TwoColons(x: ByteString, y: ByteString, z: ByteString)
    ensures x + ([COLON] + y) + ([COLON] + z) == x + ([COLON] + (y + ([COLON] + z)))
  {
  }

  lemma EncodeColon()
    ensures Utf8.Encode(":") == [COLON]
  {
  }

  lemma SplitEarlier(json: Json, name: string, payload: ByteString, k: nat)
    requires k < |name| && name[k] == ':'
    ensures Preimage(json, Event(name[..k], Utf8.Encode(name[k + 1..]) + ([COLON] + payload), V1))
            == Preimage(json, Event(name, payload, V1))
  {
    hide Preimage, Utf8.Encode;
    var a, b := name[..k], name[k + 1..];
    EncodeConcat(a, ":" + b);
    EncodeConcat(":", b);
    EncodeColon();
    assert name == a + (":" + b);
    var x, y := Utf8.Encode(a), Utf8.Encode(b);
    TwoColons(x, y, payload);
    SameRest(json, a, y + ([COLON] + payload), name, payload);
  }

  lemma SplitLater(json: Json, name: string, payload: ByteString, k: nat)
    requires k < |payload| && payload[k] == COLON && Utf8.Decode(payload[..k]).Some?
    ensures var more := Utf8.Decode(payload[..k]).value;
            Preimage(json, Event(name + (":" + more), payload[k + 1..], V1)) == Preimage(json, Event(name, payload, V1))
  {
    hide Preimage, Utf8.Encode, Utf8.Decode;
    var more := Utf8.Decode(payload[..k]).value;
    Utf8.WritesBack(payload[..k]);
    EncodeConcat(name, ":" + more);
    EncodeConcat(":", more);
    EncodeColon();
    var x, y, z := Utf8.Encode(name), payload[..k], payload[k + 1..];
    assert payload == y + ([COLON] + z);
    TwoColons(x, y, z);
    SameRest(json, name + (":" + more), z, name, payload);
  }

  /** Any other split of the same bytes is at a colon of the payload behind valid text. */
  lemma OnlySplit(json: Json, name: string, payload: ByteString, name': string, payload': ByteString)
    requires PlainlySplit(name, payload)
    requires Preimage(json, Event(name', payload', V1)) == Preimage(json, Event(name, payload, V1))
    ensures name' == name && payload' == payload
  {
    hide Preimage, Utf8.Encode, Utf8.Decode;
    SameRest(json, name', payload', name, payload);
    EncodedNoColon(name);
    if NoColon(name') {
      V1Binds(json, name', payload', name, payload);
    } else {
      var k := FirstOf(name');
      var a, b := name'[..k], name'[k + 1..];
      EncodeConcat(a, ":" + b);
      EncodeConcat(":", b);
      EncodeColon();
      assert name' == a + (":" + b);
      EncodedNoColon(a);
      var x, y := Utf8.Encode(a), Utf8.Encode(b);
      TwoColons(x, y, payload');
      FirstColon(x, y + ([COLON] + payload'), Utf8.Encode(name), payload);
      assert payload[|y|] == COLON && payload[..|y|] == y;
      Utf8.ReadsBack(b);
    }
  }

  lemma FirstOf(name: string) returns (k: nat)
    requires !NoColon(name)
    ensures k < |name| && name[k] == ':' && NoColon(name[..k])
  {
    k := 0;
    while name[k] != ':'
      invariant k < |name| && NoColon(name[..k]) && exists i :: k <= i < |name| && name[i] == ':'
      decreases |name| - k
    {
      assert name[..k + 1] == name[..k] + [name[k]];
      k := k + 1;
    }
  }

  // ----- version 2 -----

  ghost predicate InjectiveJson(json: Json) {
    forall n, p, n', p' :: json(n, p) == json(n', p') ==> n == n' && p == p'
  }

  /** Version 2 events: one preimage, one name, one payload, if the canonical JSON tells them apart. */
  lemma V2Binds(json: Json, name: string, payload: ByteString, name': string, payload': ByteString)
    requires InjectiveJson(json)
    requires Preimage(json, Event(name, payload, V2)) == Preimage(json, Event(name', payload', V2))
    ensures name == name' && payload == payload'
  {
  }

  // ----- whole logs -----

  /** Every event of the log can be told from others by its preimage. */
  predicate Plain(events: seq<Event>, version: Version) {
    forall i :: 0 <= i < |events| ==>
      events[i].version == version && (version == V1 ==> NoColon(events[i].name))
  }

  /** Two logs of one version and length that replay to one value are the same log, or something named
      collides; for version 1 if no name has a colon in it. */
  lemma LogsBind(h: Hash, json: Json, zero: ByteString, a: seq<Event>, b: seq<Event>, n: nat, version: Version)
    requires Sized(h, n) && |a| == |b| && Replay(h, json, zero, a) == Replay(h, json, zero, b)
    requires Plain(a, version) && Plain(b, version) && (version == V2 ==> InjectiveJson(json))
    ensures || a == b
            || (exists i :: ExtendsCollide(h, json, zero, a, b, i))
            || (exists i :: PreimagesCollide(h, json, a, b, i))
  {
    hide Preimage, Replay, ExtendsCollide, PreimagesCollide, InjectiveJson, NoColon, Sized;
    ReplaysBind(h, json, zero, a, b, n);
    if SamePreimages(json, a, b) {
      forall i | 0 <= i < |a|
        ensures a[i] == b[i]
      {
        if version == V1 {
          V1Binds(json, a[i].name, a[i].payload, b[i].name, b[i].payload);
        } else {
          V2Binds(json, a[i].name, a[i].payload, b[i].name, b[i].payload);
        }
      }
    }
  }
}
