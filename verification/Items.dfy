/** Lists of (id, length, value) items, as they follow the fixed part of a location report. */
module Items {
  import opened Bytes

  datatype Item = Item(id: Byte, data: Bytes)

  ghost predicate Encodable(items: seq<Item>) {
    forall i :: 0 <= i < |items| ==> |items[i].data| < 256
  }

  ghost function Encode(items: seq<Item>): Bytes
    requires Encodable(items)
  {
    if items == [] then [] else [items[0].id, |items[0].data|] + items[0].data + Encode(items[1..])
  }

  /** The declared length of the item that starts here. */
  function Declared(rest: Bytes): (n: nat)
    requires |rest| >= 2
    ensures n < 256
  {
    rest[1]
  }

  /** No complete item starts here. */
  predicate Truncated(rest: Bytes) { |rest| < 2 || 2 + Declared(rest) > |rest| }

  /** The item that starts here. */
  function First(rest: Bytes): Item
    requires !Truncated(rest)
  {
    Item(rest[0], rest[2..2 + Declared(rest)])
  }

  /** What follows it. */
  function After(rest: Bytes): Bytes
    requires !Truncated(rest)
  {
    rest[2 + Declared(rest)..]
  }

  /** The complete items at the head of the bytes. */
  function Complete(rest: Bytes): (items: seq<Item>)
    ensures Encodable(items)
  {
    if Truncated(rest) then [] else [First(rest)] + Complete(After(rest))
  }

  /** What is left after them. */
  function Tail(rest: Bytes): (tail: Bytes)
    ensures Truncated(tail)
  {
    if Truncated(rest) then rest else Tail(After(rest))
  }

  /** Reading back what was encoded, in front of a truncated rest. */
  lemma {:induction false} CompleteEncode(items: seq<Item>, tail: Bytes)
    requires Encodable(items) && Truncated(tail)
    ensures Complete(Encode(items) + tail) == items && Tail(Encode(items) + tail) == tail
  {
    if items == [] {
      assert Encode(items) + tail == tail;
    } else {
      var rest := Encode(items[1..]) + tail;
      CompleteEncode(items[1..], tail);
      ReadItem(items[0], rest);
      ConcatAssociates([items[0].id, |items[0].data|] + items[0].data, Encode(items[1..]), tail);
      assert [items[0]] + items[1..] == items;
    }
  }

  lemma ReadItem(item: Item, rest: Bytes)
    requires |item.data| < 256
    ensures var whole := [item.id, |item.data|] + item.data + rest;
            !Truncated(whole) && First(whole) == item && After(whole) == rest
  {
  }

  /** Every byte string is the encoding of its complete items and its tail. */
  lemma {:induction false} EncodeComplete(rest: Bytes)
    ensures Encode(Complete(rest)) + Tail(rest) == rest
  {
    if !Truncated(rest) {
      hide First, After, Encode, Complete;
      var item, after := First(rest), After(rest);
      EncodeComplete(after);
      EncodeFirst(rest);
      ConcatAssociates([item.id, |item.data|] + item.data, Encode(Complete(after)), Tail(after));
    }
  }

  lemma EncodeFirst(rest: Bytes)
    requires !Truncated(rest)
    ensures var item := First(rest);
            && rest == [item.id, |item.data|] + item.data + After(rest)
            && Encode(Complete(rest)) == [item.id, |item.data|] + item.data + Encode(Complete(After(rest)))
  {
    FirstBytes(rest);
    hide First, After;
    assert Complete(rest)[1..] == Complete(After(rest)) && Complete(rest)[0] == First(rest);
  }

  lemma FirstBytes(rest: Bytes)
    requires !Truncated(rest)
    ensures var item := First(rest);
            |item.data| < 256 && rest == [item.id, |item.data|] + item.data + After(rest)
  {
  }

  /** The lengths for which a parser reads an item. */
  datatype Length = AtLeast(n: nat) | Exactly(n: nat)

  predicate Fits(data: Bytes, length: Length) {
    match length case AtLeast(n) => |data| >= n case Exactly(n) => |data| == n
  }

  /** The value of the last item with this id and a length that fits. */
  function Last(items: seq<Item>, id: Byte, length: Length): (r: Option<Bytes>)
    ensures r.Some? ==> Fits(r.value, length)
  {
    if items == [] then None
    else
      var later := Last(items[1..], id, length);
      if later.Some? then later
      else if Matches(items[0], id, length) then Some(items[0].data)
      else None
  }

  predicate Matches(item: Item, id: Byte, length: Length) { item.id == id && Fits(item.data, length) }

  lemma {:induction false} LastMeaning(items: seq<Item>, id: Byte, length: Length, data: Bytes)
    ensures Last(items, id, length) == Some(data) <==>
            exists i :: 0 <= i < |items| && Matches(items[i], id, length) && items[i].data == data
                        && forall j :: i < j < |items| ==> !Matches(items[j], id, length)
    ensures Last(items, id, length) == None <==> forall i :: 0 <= i < |items| ==> !Matches(items[i], id, length)
  {
    if items != [] {
      var rest := items[1..];
      LastMeaning(rest, id, length, data);
      if Last(rest, id, length) == Some(data) {
        var i :| 0 <= i < |rest| && Matches(rest[i], id, length) && rest[i].data == data
                 && forall j :: i < j < |rest| ==> !Matches(rest[j], id, length);
        assert items[i + 1] == rest[i];
        forall j | i + 1 < j < |items|
          ensures !Matches(items[j], id, length)
        {
          assert items[j] == rest[j - 1];
        }
      }
      forall i | 0 <= i < |rest|
        ensures rest[i] == items[i + 1]
      {
      }
      LastFromTail(items, id, length, data);
    }
  }

  lemma {:induction false} LastFromTail(items: seq<Item>, id: Byte, length: Length, data: Bytes)
    requires items != []
    requires Last(items[1..], id, length) == None
        <==> forall i :: 0 <= i < |items[1..]| ==> !Matches(items[1..][i], id, length)
    ensures Last(items[1..], id, length) == None <==> forall i :: 1 <= i < |items| ==> !Matches(items[i], id, length)
  {
    forall i | 1 <= i < |items|
      ensures items[i] == items[1..][i - 1]
    {
    }
  }

  /** Items with the same id are equal: in particular lists of items with distinct ids. */
  ghost predicate Consistent(items: seq<Item>) {
    forall i, j :: 0 <= i < |items| && 0 <= j < |items| && items[i].id == items[j].id ==> items[i] == items[j]
  }

  lemma {:induction false} LastIsMember(items: seq<Item>, id: Byte, length: Length)
    ensures Last(items, id, length).Some? ==> Item(id, Last(items, id, length).value) in items
    ensures Last(items, id, length).None? ==> forall item :: item in items ==> !Matches(item, id, length)
  {
    if items != [] {
      LastIsMember(items[1..], id, length);
    }
  }

  /** On consistent lists only the set of items matters, not their order or number. */
  lemma LastUnordered(a: seq<Item>, b: seq<Item>, id: Byte, length: Length)
    requires Consistent(a) && forall item :: item in a <==> item in b
    ensures Last(a, id, length) == Last(b, id, length)
  {
    LastIsMember(a, id, length);
    LastIsMember(b, id, length);
    if Last(a, id, length).Some? {
      assert Matches(Item(id, Last(a, id, length).value), id, length);
      if Last(b, id, length).Some? {
        assert Item(id, Last(b, id, length).value) in a;
      }
    } else if Last(b, id, length).Some? {
      assert Matches(Item(id, Last(b, id, length).value), id, length);
    }
  }
}
