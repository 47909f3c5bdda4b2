/**
  The value tree the daemon's RPC transport delivers, and `convert`, the
  recursive normaliser that decodes every byte string to text before the
  retention engine looks at a reply.

  The transport hands back bytes for every text field; `convert` decodes
  bytes as ASCII, rebuilds dictionaries from their converted items and
  converts the elements of tuples. Every other value, lists included, is
  returned as it is.
 */
module Values {

  newtype byte = b: int | 0 <= b < 256

  /** A decoded-or-raw value as the transport produces it. A dictionary is
      its list of items in insertion order. */
  datatype Value =
    | Null
    | Bool(b: bool)
    | Int(i: int)
    | Num(x: real)
    | Str(s: string)
    | Bytes(data: seq<byte>)
    | List(elems: seq<Value>)
    | Tuple(elems: seq<Value>)
    | Dict(items: seq<(Value, Value)>)

  /** The error `bytes.decode('ascii')` raises: the first byte outside ASCII. */
  datatype DecodeError = NonAscii(offender: byte)

  datatype Result<T> = Success(value: T) | Failure(error: DecodeError)

  // ---------------------------------------------------------------------
  // ASCII decoding of one byte string, and its inverse

  predicate IsAsciiBytes(bs: seq<byte>) {
    forall i :: 0 <= i < |bs| ==> bs[i] < 128
  }

  predicate IsAsciiText(s: string) {
    forall i :: 0 <= i < |s| ==> s[i] as int < 128
  }

  /** `bs.decode('ascii')`: one character per byte, or the first byte that
      is not ASCII. */
  function DecodeAscii(bs: seq<byte>): (r: Result<string>)
    ensures r.Success? <==> IsAsciiBytes(bs)
    ensures r.Success? ==> |r.value| == |bs| && IsAsciiText(r.value)
    ensures r.Success? ==> forall i :: 0 <= i < |bs| ==> r.value[i] as int == bs[i] as int
    ensures r.Failure? ==> r.error.offender >= 128 && r.error.offender in bs
    ensures r.Failure? ==>
      exists i :: 0 <= i < |bs| && bs[i] == r.error.offender && IsAsciiBytes(bs[..i])
  {
    if bs == [] then Success("")
    else if bs[0] >= 128 then Failure(NonAscii(bs[0]))
    else
      match DecodeAscii(bs[1..])
      case Success(rest) => Success([(bs[0] as int) as char] + rest)
      case Failure(e) => FirstNonAsciiShift(bs, e.offender); Failure(e)
  }

  /** A non-ASCII byte preceded only by ASCII bytes in the tail of `bs` is
      also preceded only by ASCII bytes in `bs`, when its head is ASCII. */
  lemma FirstNonAsciiShift(bs: seq<byte>, x: byte)
    requires |bs| > 0 && bs[0] < 128
    requires exists i :: 0 <= i < |bs[1..]| && bs[1..][i] == x && IsAsciiBytes(bs[1..][..i])
    ensures exists i :: 0 <= i < |bs| && bs[i] == x && IsAsciiBytes(bs[..i])
  {
    var i :| 0 <= i < |bs[1..]| && bs[1..][i] == x && IsAsciiBytes(bs[1..][..i]);
    assert bs[..i + 1] == [bs[0]] + bs[1..][..i];
    assert bs[i + 1] == x;
  }

  /** `s.encode('ascii')` for text that is ASCII. */
  function EncodeAscii(s: string): (bs: seq<byte>)
    requires IsAsciiText(s)
    ensures |bs| == |s| && IsAsciiBytes(bs)
    ensures forall i :: 0 <= i < |s| ==> bs[i] as int == s[i] as int
  {
    seq(|s|, i requires 0 <= i < |s| => s[i] as int as byte)
  }

  lemma DecodeEncode(s: string)
    requires IsAsciiText(s)
    ensures DecodeAscii(EncodeAscii(s)) == Success(s)
  {
    var r := DecodeAscii(EncodeAscii(s));
    assert |r.value| == |s|;
    forall i | 0 <= i < |s| ensures r.value[i] == s[i] {
      assert r.value[i] as int == s[i] as int;
    }
    assert r.value == s;
  }

  lemma EncodeDecode(bs: seq<byte>)
    requires IsAsciiBytes(bs)
    ensures EncodeAscii(DecodeAscii(bs).value) == bs
  {
  }

  // ---------------------------------------------------------------------
  // Dictionaries rebuilt with `dict(...)`

  predicate DistinctKeys(d: seq<(Value, Value)>) {
    forall i, j :: 0 <= i < j < |d| ==> d[i].0 != d[j].0
  }

  /** The position of the first item of `d` with key `k`, or -1 when `k` is
      not a key. */
  function KeyIndex(d: seq<(Value, Value)>, k: Value): (i: int)
    ensures -1 <= i < |d|
    ensures 0 <= i ==> d[i].0 == k && forall j :: 0 <= j < i ==> d[j].0 != k
    ensures i == -1 <==> forall j :: 0 <= j < |d| ==> d[j].0 != k
  {
    if d == [] then -1
    else if d[0].0 == k then 0
    else
      var i := KeyIndex(d[1..], k);
      if i == -1 then -1 else i + 1
  }

  /** `d[k] = v`: a key already present keeps its position and takes the
      new value; a new key goes at the end. */
  function Put(d: seq<(Value, Value)>, k: Value, v: Value): (r: seq<(Value, Value)>)
    ensures DistinctKeys(d) ==> DistinctKeys(r)
    ensures forall p :: p in r ==> p in d || p == (k, v)
    ensures (forall j :: 0 <= j < |d| ==> d[j].0 != k) ==> r == d + [(k, v)]
    ensures KeyIndex(d, k) >= 0 ==> |r| == |d| && r[KeyIndex(d, k)] == (k, v)
    ensures KeyIndex(d, k) >= 0 ==>
      forall j :: 0 <= j < |d| && j != KeyIndex(d, k) ==> r[j] == d[j]
  {
    var i := KeyIndex(d, k);
    if i == -1 then d + [(k, v)]
    else
      var r := d[i := (k, v)];
      assert forall j :: 0 <= j < |r| && j != i ==> r[j] == d[j];
      r
  }

  /** `dict(pairs)`: the items of `pairs` stored one after the other. */
  function FromPairs(ps: seq<(Value, Value)>): (r: seq<(Value, Value)>)
    ensures DistinctKeys(r)
    ensures forall p :: p in r ==> p in ps
  {
    if ps == [] then []
    else
      var last := ps[|ps| - 1];
      Put(FromPairs(ps[..|ps| - 1]), last.0, last.1)
  }

  /** Where each key sits after `d[k] = v`: keys already present do not
      move, and a new `k` goes at the end. */
  lemma PutKeyIndex(d: seq<(Value, Value)>, k: Value, v: Value, key: Value)
    ensures KeyIndex(Put(d, k, v), key) ==
      if KeyIndex(d, key) >= 0 then KeyIndex(d, key) else if key == k then |d| else -1
  {
    var r := Put(d, k, v);
    if KeyIndex(d, k) == -1 {
      KeyIndexSnoc(d, (k, v), key);
    } else {
      assert forall j :: 0 <= j < |r| ==> r[j].0 == d[j].0;
      KeyIndexSameKeys(d, r, key);
    }
  }

  lemma {:induction false} KeyIndexSameKeys(d: seq<(Value, Value)>, e: seq<(Value, Value)>, key: Value)
    requires |d| == |e| && forall j :: 0 <= j < |d| ==> d[j].0 == e[j].0
    ensures KeyIndex(d, key) == KeyIndex(e, key)
  {
    if d != [] {
      KeyIndexSameKeys(d[1..], e[1..], key);
    }
  }

  lemma {:induction false} KeyIndexSnoc(d: seq<(Value, Value)>, last: (Value, Value), key: Value)
    ensures KeyIndex(d + [last], key) ==
      if KeyIndex(d, key) >= 0 then KeyIndex(d, key) else if key == last.0 then |d| else -1
  {
    if d != [] {
      assert (d + [last])[1..] == d[1..] + [last];
      KeyIndexSnoc(d[1..], last, key);
    }
  }

  /** The position of the last item with key `k`, or -1. */
  function LastKeyIndex(d: seq<(Value, Value)>, k: Value): (i: int)
    ensures -1 <= i < |d|
    ensures 0 <= i ==> d[i].0 == k && forall j :: i < j < |d| ==> d[j].0 != k
    ensures i == -1 <==> forall j :: 0 <= j < |d| ==> d[j].0 != k
  {
    if d == [] then -1
    else if d[|d| - 1].0 == k then |d| - 1
    else LastKeyIndex(d[..|d| - 1], k)
  }

  /** `dict(items)` has exactly the keys of the items. */
  lemma {:induction false} FromPairsKeys(ps: seq<(Value, Value)>, key: Value)
    ensures KeyIndex(FromPairs(ps), key) == -1 <==> KeyIndex(ps, key) == -1
  {
    if ps != [] {
      var init := ps[..|ps| - 1];
      var last := ps[|ps| - 1];
      var fi := FromPairs(init);
      FromPairsKeys(init, key);
      PutKeyIndex(fi, last.0, last.1, key);
      assert FromPairs(ps) == Put(fi, last.0, last.1);
      assert ps == init + [last];
      KeyIndexSnoc(init, last, key);
    }
  }

  /** `dict(items)` keeps the keys in the order of their first occurrence
      among the items. */
  lemma {:induction false} FromPairsOrder(ps: seq<(Value, Value)>, a: Value, b: Value)
    requires KeyIndex(ps, a) >= 0 && KeyIndex(ps, b) >= 0
    ensures KeyIndex(ps, a) < KeyIndex(ps, b) <==>
            KeyIndex(FromPairs(ps), a) < KeyIndex(FromPairs(ps), b)
  {
    var init := ps[..|ps| - 1];
    var last := ps[|ps| - 1];
    var fi := FromPairs(init);
    assert FromPairs(ps) == Put(fi, last.0, last.1);
    assert ps == init + [last];
    KeyIndexSnoc(init, last, a);
    KeyIndexSnoc(init, last, b);
    PutKeyIndex(fi, last.0, last.1, a);
    PutKeyIndex(fi, last.0, last.1, b);
    FromPairsKeys(init, a);
    FromPairsKeys(init, b);
    if KeyIndex(init, a) >= 0 && KeyIndex(init, b) >= 0 {
      FromPairsOrder(init, a, b);
    }
  }

  /** `dict(items)` stores under each key the value of that key's last
      item: a later item overwrites an earlier one. */
  lemma {:induction false} FromPairsValue(ps: seq<(Value, Value)>, key: Value)
    requires KeyIndex(ps, key) >= 0
    ensures KeyIndex(FromPairs(ps), key) >= 0
    ensures FromPairs(ps)[KeyIndex(FromPairs(ps), key)].1 == ps[LastKeyIndex(ps, key)].1
  {
    var init := ps[..|ps| - 1];
    var last := ps[|ps| - 1];
    var fi := FromPairs(init);
    assert FromPairs(ps) == Put(fi, last.0, last.1);
    assert ps == init + [last];
    KeyIndexSnoc(init, last, key);
    PutKeyIndex(fi, last.0, last.1, key);
    FromPairsKeys(init, key);
    if last.0 != key {
      FromPairsValue(init, key);
      assert LastKeyIndex(ps, key) == LastKeyIndex(init, key);
      assert KeyIndex(fi, last.0) >= 0 ==> KeyIndex(fi, key) != KeyIndex(fi, last.0);
    }
  }

  /** Storing items whose keys are already distinct changes nothing. */
  lemma {:induction false} FromPairsOfDistinct(ps: seq<(Value, Value)>)
    requires DistinctKeys(ps)
    ensures FromPairs(ps) == ps
  {
    if ps != [] {
      var init := ps[..|ps| - 1];
      var last := ps[|ps| - 1];
      assert DistinctKeys(init);
      FromPairsOfDistinct(init);
      forall j | 0 <= j < |init| ensures init[j].0 != last.0 {
        assert init[j] == ps[j];
      }
      assert FromPairs(ps) == Put(init, last.0, last.1);
      assert init + [(last.0, last.1)] == ps;
    }
  }

  // ---------------------------------------------------------------------
  // convert

  /** The values `convert` decodes without error: no byte string outside
      ASCII where `convert` looks (everywhere but inside lists). */
  predicate AsciiOnly(v: Value)
    decreases v
  {
    match v
    case Bytes(bs) => IsAsciiBytes(bs)
    case Tuple(es) => forall e :: e in es ==> AsciiOnly(e)
    case Dict(ps) => forall p :: p in ps ==> AsciiOnly(p.0) && AsciiOnly(p.1)
    case _ => true
  }

  /** The shape of `convert`'s output: no byte string where `convert` looks
      (keys included), and every dictionary has distinct keys. */
  predicate Normal(v: Value)
    decreases v
  {
    match v
    case Bytes(_) => false
    case Tuple(es) => forall e :: e in es ==> Normal(e)
    case Dict(ps) => DistinctKeys(ps) && forall p :: p in ps ==> Normal(p.0) && Normal(p.1)
    case _ => true
  }

  /** `convert(data)`: bytes are decoded as ASCII, a dictionary is rebuilt
      from its converted items, the elements of a tuple are converted, and
      anything else is returned unchanged. */
  function Convert(v: Value): (r: Result<Value>)
    decreases v, 1
    ensures r.Success? <==> AsciiOnly(v)
    ensures r.Success? ==> Normal(r.value)
    ensures r.Failure? ==> r.error.offender >= 128
    ensures !v.Bytes? && !v.Dict? && !v.Tuple? ==> r == Success(v)
    ensures v.Bytes? && r.Success? ==> r.value == Str(DecodeAscii(v.data).value)
    ensures v.Tuple? && r.Success? ==> r.value.Tuple? && |r.value.elems| == |v.elems|
    ensures v.Dict? && r.Success? ==> r.value.Dict?
    ensures r.Success? && r.value == Bool(true) ==> v == Bool(true)
  {
    match v
    case Bytes(bs) =>
      (match DecodeAscii(bs)
       case Success(s) => Success(Str(s))
       case Failure(e) => Failure(e))
    case Dict(ps) =>
      (match ConvertItems(ps)
       case Success(qs) => Success(Dict(FromPairs(qs)))
       case Failure(e) => Failure(e))
    case Tuple(es) =>
      (match ConvertAll(es)
       case Success(fs) => Success(Tuple(fs))
       case Failure(e) => Failure(e))
    case _ => Success(v)
  }

  /** The elements of a tuple, converted in order; the first failure wins. */
  function ConvertAll(es: seq<Value>): (r: Result<seq<Value>>)
    decreases es, 0
    ensures r.Success? <==> forall e :: e in es ==> AsciiOnly(e)
    ensures r.Success? ==> |r.value| == |es| && forall f :: f in r.value ==> Normal(f)
    ensures r.Success? ==> forall i :: 0 <= i < |es| ==> Convert(es[i]) == Success(r.value[i])
    ensures r.Failure? ==> r.error.offender >= 128
  {
    if es == [] then Success([])
    else
      assert es[0] in es;
      match Convert(es[0])
      case Failure(e) => Failure(e)
      case Success(f) =>
        assert forall e :: e in es[1..] ==> e in es;
        match ConvertAll(es[1..])
        case Failure(e) => Failure(e)
        case Success(fs) => Success([f] + fs)
  }

  /** The items of a dictionary, key then value, converted in order. */
  function ConvertItems(ps: seq<(Value, Value)>): (r: Result<seq<(Value, Value)>>)
    decreases ps, 0
    ensures r.Success? <==> forall p :: p in ps ==> AsciiOnly(p.0) && AsciiOnly(p.1)
    ensures r.Success? ==> |r.value| == |ps|
    ensures r.Success? ==> forall q :: q in r.value ==> Normal(q.0) && Normal(q.1)
    ensures r.Failure? ==> r.error.offender >= 128
  {
    if ps == [] then Success([])
    else
      var p := ps[0];
      assert p in ps && p.0 < p && p.1 < p;
      match Convert(p.0)
      case Failure(e) => Failure(e)
      case Success(k) =>
        match Convert(p.1)
        case Failure(e) => Failure(e)
        case Success(x) =>
          match ConvertItems(ps[1..])
          case Failure(e) => Failure(e)
          case Success(qs) => Success([(k, x)] + qs)
  }

  /** Item by item, the converted items are the keys and values of the input
      converted one by one. */
  lemma {:induction false} ConvertItemsPointwise(ps: seq<(Value, Value)>)
    requires ConvertItems(ps).Success?
    ensures forall i :: 0 <= i < |ps| ==>
      && Convert(ps[i].0) == Success(ConvertItems(ps).value[i].0)
      && Convert(ps[i].1) == Success(ConvertItems(ps).value[i].1)
    decreases ps
  {
    if ps != [] {
      var p := ps[0];
      assert p in ps;
      assert forall q :: q in ps[1..] ==> q in ps;
      ConvertItemsPointwise(ps[1..]);
      forall i | 0 <= i < |ps|
        ensures Convert(ps[i].0) == Success(ConvertItems(ps).value[i].0)
        ensures Convert(ps[i].1) == Success(ConvertItems(ps).value[i].1)
      {
        if i > 0 {
          assert ps[i] == ps[1..][i - 1];
        }
      }
    }
  }

  /** A converted tuple holds, position by position, its elements converted. */
  lemma ConvertTupleElements(es: seq<Value>)
    requires AsciiOnly(Tuple(es))
    ensures Convert(Tuple(es)).value.Tuple?
    ensures |Convert(Tuple(es)).value.elems| == |es|
    ensures forall i :: 0 <= i < |es| ==> Convert(es[i]) == Success(Convert(Tuple(es)).value.elems[i])
  {
  }

  /** A converted dictionary holds only converted items of the input. */
  lemma ConvertDictItems(ps: seq<(Value, Value)>)
    requires AsciiOnly(Dict(ps))
    ensures Convert(Dict(ps)).value.Dict?
    ensures forall q :: q in Convert(Dict(ps)).value.items ==>
      exists j :: 0 <= j < |ps| && Convert(ps[j].0) == Success(q.0) && Convert(ps[j].1) == Success(q.1)
  {
    var qs := ConvertItems(ps).value;
    assert Convert(Dict(ps)) == Success(Dict(FromPairs(qs)));
    ConvertItemsPointwise(ps);
    forall q | q in FromPairs(qs)
      ensures exists j :: 0 <= j < |ps| && Convert(ps[j].0) == Success(q.0) && Convert(ps[j].1) == Success(q.1)
    {
      var j :| 0 <= j < |qs| && qs[j] == q;
      assert Convert(ps[j].0) == Success(q.0) && Convert(ps[j].1) == Success(q.1);
    }
  }

  /** Every key of the input, converted, is a key of the converted
      dictionary, and it maps to the converted value of the last input item
      whose key converts to it. */
  lemma ConvertDictKey(ps: seq<(Value, Value)>, j: nat)
    requires AsciiOnly(Dict(ps)) && j < |ps|
    ensures Convert(Dict(ps)).value.Dict?
    ensures Convert(ps[j].0).Success? && KeyIndex(Convert(Dict(ps)).value.items, Convert(ps[j].0).value) >= 0
    ensures (forall j' :: j < j' < |ps| ==> Convert(ps[j'].0) != Convert(ps[j].0)) ==>
      var r := Convert(Dict(ps)).value.items;
      Convert(ps[j].1) == Success(r[KeyIndex(r, Convert(ps[j].0).value)].1)
  {
    var qs := ConvertItems(ps).value;
    var r := FromPairs(qs);
    assert Convert(Dict(ps)) == Success(Dict(r));
    ConvertItemsPointwise(ps);
    var k := qs[j].0;
    assert Convert(ps[j].0) == Success(k);
    assert KeyIndex(qs, k) >= 0;
    FromPairsValue(qs, k);
    if forall j' :: j < j' < |ps| ==> Convert(ps[j'].0) != Convert(ps[j].0) {
      forall j' | j < j' < |qs| ensures qs[j'].0 != k {
        assert Convert(ps[j'].0) == Success(qs[j'].0);
      }
      assert LastKeyIndex(qs, k) == j;
    }
  }

  /** The keys of a converted dictionary keep the order in which they first
      occur, converted, among the input's keys. */
  lemma ConvertDictOrder(ps: seq<(Value, Value)>, i1: nat, i2: nat)
    requires AsciiOnly(Dict(ps)) && i1 < |ps| && i2 < |ps|
    requires forall j :: 0 <= j < i1 ==> Convert(ps[j].0) != Convert(ps[i1].0)
    requires forall j :: 0 <= j < i2 ==> Convert(ps[j].0) != Convert(ps[i2].0)
    ensures Convert(Dict(ps)).value.Dict?
    ensures var r := Convert(Dict(ps)).value.items;
      && KeyIndex(r, Convert(ps[i1].0).value) >= 0 && KeyIndex(r, Convert(ps[i2].0).value) >= 0
      && (i1 < i2 <==> KeyIndex(r, Convert(ps[i1].0).value) < KeyIndex(r, Convert(ps[i2].0).value))
  {
    var qs := ConvertItems(ps).value;
    assert Convert(Dict(ps)) == Success(Dict(FromPairs(qs)));
    ConvertItemsPointwise(ps);
    var a, b := qs[i1].0, qs[i2].0;
    assert Convert(ps[i1].0) == Success(a) && Convert(ps[i2].0) == Success(b);
    forall j | 0 <= j < i1 ensures qs[j].0 != a {
      assert Convert(ps[j].0) == Success(qs[j].0);
    }
    forall j | 0 <= j < i2 ensures qs[j].0 != b {
      assert Convert(ps[j].0) == Success(qs[j].0);
    }
    assert KeyIndex(qs, a) == i1 && KeyIndex(qs, b) == i2;
    FromPairsOrder(qs, a, b);
    FromPairsKeys(qs, a);
    FromPairsKeys(qs, b);
  }

  // ---------------------------------------------------------------------
  // convert undoes the ASCII encoding of text

  /** The inverse direction of `convert`: every ASCII string reachable
      through tuples and dictionaries is encoded back into a byte string. */
  function EncodeStrings(v: Value): (r: Value)
    decreases v, 1
    ensures v.Str? && IsAsciiText(v.s) ==> r.Bytes? && DecodeAscii(r.data) == Success(v.s)
    ensures !v.Str? && !v.Tuple? && !v.Dict? ==> r == v
  {
    match v
    case Str(s) =>
      if IsAsciiText(s) then DecodeEncode(s); Bytes(EncodeAscii(s)) else v
    case Tuple(es) => Tuple(EncodeAll(es))
    case Dict(ps) => Dict(EncodeItems(ps))
    case _ => v
  }

  function EncodeAll(es: seq<Value>): (r: seq<Value>)
    decreases es, 0
    ensures |r| == |es| && forall i :: 0 <= i < |es| ==> r[i] == EncodeStrings(es[i])
  {
    if es == [] then [] else [EncodeStrings(es[0])] + EncodeAll(es[1..])
  }

  function EncodeItems(ps: seq<(Value, Value)>): (r: seq<(Value, Value)>)
    decreases ps, 0
    ensures |r| == |ps|
  {
    if ps == [] then []
    else
      var p := ps[0];
      assert p in ps && p.0 < p && p.1 < p;
      [(EncodeStrings(p.0), EncodeStrings(p.1))] + EncodeItems(ps[1..])
  }

  /** Encoding the strings of a converted value and converting again gives
      the value back. */
  lemma {:induction false} ConvertEncodeStrings(v: Value)
    requires Normal(v)
    ensures Convert(EncodeStrings(v)) == Success(v)
    decreases v, 1
  {
    match v
    case Str(s) =>
      if IsAsciiText(s) {
        DecodeEncode(s);
      }
    case Tuple(es) =>
      ConvertEncodeAll(es);
    case Dict(ps) =>
      ConvertEncodeItems(ps);
      FromPairsOfDistinct(ps);
    case _ =>
  }

  lemma {:induction false} ConvertEncodeAll(es: seq<Value>)
    requires forall e :: e in es ==> Normal(e)
    ensures ConvertAll(EncodeAll(es)) == Success(es)
    decreases es, 0
  {
    if es != [] {
      assert es[0] in es;
      ConvertEncodeStrings(es[0]);
      assert forall e :: e in es[1..] ==> e in es;
      ConvertEncodeAll(es[1..]);
      var enc := EncodeAll(es);
      assert enc[1..] == EncodeAll(es[1..]);
      assert [es[0]] + es[1..] == es;
    }
  }

  lemma {:induction false} ConvertEncodeItems(ps: seq<(Value, Value)>)
    requires forall p :: p in ps ==> Normal(p.0) && Normal(p.1)
    ensures ConvertItems(EncodeItems(ps)) == Success(ps)
    decreases ps, 0
  {
    if ps != [] {
      var p := ps[0];
      assert p in ps && p.0 < p && p.1 < p;
      ConvertEncodeStrings(p.0);
      ConvertEncodeStrings(p.1);
      assert forall q :: q in ps[1..] ==> q in ps;
      ConvertEncodeItems(ps[1..]);
      assert [p] + ps[1..] == ps;
    }
  }

  // ---------------------------------------------------------------------
  // convert is the identity on its own output

  lemma {:induction false} ConvertFixesNormal(v: Value)
    requires Normal(v)
    ensures Convert(v) == Success(v)
    decreases v, 1
  {
    match v
    case Dict(ps) =>
      ConvertItemsFixNormal(ps);
      FromPairsOfDistinct(ps);
    case Tuple(es) =>
      ConvertAllFixesNormal(es);
    case _ =>
  }

  lemma {:induction false} ConvertAllFixesNormal(es: seq<Value>)
    requires forall e :: e in es ==> Normal(e)
    ensures ConvertAll(es) == Success(es)
    decreases es, 0
  {
    if es != [] {
      assert es[0] in es;
      ConvertFixesNormal(es[0]);
      assert forall e :: e in es[1..] ==> e in es;
      ConvertAllFixesNormal(es[1..]);
      assert [es[0]] + es[1..] == es;
    }
  }

  lemma {:induction false} ConvertItemsFixNormal(ps: seq<(Value, Value)>)
    requires forall p :: p in ps ==> Normal(p.0) && Normal(p.1)
    ensures ConvertItems(ps) == Success(ps)
    decreases ps, 0
  {
    if ps != [] {
      var p := ps[0];
      assert p in ps && p.0 < p && p.1 < p;
      ConvertFixesNormal(p.0);
      ConvertFixesNormal(p.1);
      assert forall q :: q in ps[1..] ==> q in ps;
      ConvertItemsFixNormal(ps[1..]);
      assert [p] + ps[1..] == ps;
    }
  }

  /** Converting an already converted value changes nothing. */
  lemma ConvertIdempotent(v: Value)
    requires AsciiOnly(v)
    ensures Convert(Convert(v).value) == Convert(v)
  {
    ConvertFixesNormal(Convert(v).value);
  }

  /** A value that holds no list has no byte string anywhere once
      converted, dictionary keys included. */
  predicate HasBytes(v: Value)
    decreases v
  {
    match v
    case Bytes(_) => true
    case List(es) => exists e :: e in es && HasBytes(e)
    case Tuple(es) => exists e :: e in es && HasBytes(e)
    case Dict(ps) => exists p :: p in ps && (HasBytes(p.0) || HasBytes(p.1))
    case _ => false
  }

  predicate HasList(v: Value)
    decreases v
  {
    match v
    case List(_) => true
    case Tuple(es) => exists e :: e in es && HasList(e)
    case Dict(ps) => exists p :: p in ps && (HasList(p.0) || HasList(p.1))
    case _ => false
  }

  /** Outside lists, a converted value holds no byte string at all. */
  lemma {:induction false} NormalHasNoBytes(v: Value)
    requires Normal(v) && !HasList(v)
    ensures !HasBytes(v)
    decreases v
  {
    match v
    case Tuple(es) =>
      forall e | e in es ensures !HasBytes(e) {
        NormalHasNoBytes(e);
      }
    case Dict(ps) =>
      forall p | p in ps ensures !HasBytes(p.0) && !HasBytes(p.1) {
        assert p.0 < p && p.1 < p;
        NormalHasNoBytes(p.0);
        NormalHasNoBytes(p.1);
      }
    case _ =>
  }

  /** Byte strings inside a list survive `convert`. */
  lemma ListKeepsBytes()
    ensures var v := List([Bytes([104, 105])]);
            Convert(v) == Success(v) && HasBytes(Convert(v).value)
  {
    var e := Bytes([104, 105]);
    assert e in [e];
  }
}
