/** The recorded collector inputs and the byte stream that is hashed over them: sorted paths,
    NUL, the decimal byte length, NUL, the bytes. The framing has a decoder, so the stream
    determines the recorded inputs. */
module DigestFraming {
  import opened Prelude
  import opened Decimal

  type Byte = b: int | 0 <= b < 256
  type Bytes = seq<Byte>

  /** A repository-relative path in UTF-8. A tracked path never contains NUL. */
  type Path = Bytes

  datatype Item = Item(path: Path, data: Bytes)

  predicate NulFree(p: Path) { 0 !in p }

  // ------------------------------------------------------------------ the frame

  function Ascii(ds: seq<Digit>): Bytes {
    seq(|ds|, i requires 0 <= i < |ds| => (48 + ds[i] as int) as Byte)
  }

  function Frame(item: Item): Bytes {
    item.path + [0] + Ascii(Digits(|item.data|)) + [0] + item.data
  }

  function Encode(items: seq<Item>): Bytes {
    if items == [] then [] else Frame(items[0]) + Encode(items[1..])
  }

  // ------------------------------------------------------------------ the decoder

  ghost function UpToNul(s: Bytes): (n: nat)
    ensures n <= |s|
    ensures forall i :: 0 <= i < n ==> s[i] != 0
    ensures n < |s| ==> s[n] == 0
  {
    if s == [] || s[0] == 0 then 0 else 1 + UpToNul(s[1..])
  }

  ghost predicate AllDigits(s: Bytes) { forall i :: 0 <= i < |s| ==> 48 <= s[i] < 58 }

  ghost function FromAscii(s: Bytes): seq<Digit>
    requires AllDigits(s)
  {
    seq(|s|, i requires 0 <= i < |s| => (s[i] as int - 48) as Digit)
  }

  /** Reads one frame and what follows it. */
  ghost function DecodeOne(s: Bytes): Option<(Item, Bytes)> {
    var p := UpToNul(s);
    if p == |s| then None
    else
      var rest := s[p + 1..];
      var q := UpToNul(rest);
      if q == |rest| || !AllDigits(rest[..q]) then None
      else
        var n, body := Value(FromAscii(rest[..q])), rest[q + 1..];
        if n > |body| then None else Some((Item(s[..p], body[..n]), body[n..]))
  }

  ghost function Decode(s: Bytes): Option<seq<Item>>
    decreases |s|
  {
    if s == [] then Some([])
    else
      match DecodeOne(s)
      case None => None
      case Some((item, rest)) =>
        if |rest| >= |s| then None
        else
          match Decode(rest)
          case None => None
          case Some(items) => Some([item] + items)
  }

  lemma UpToNulStops(a: Bytes, b: Bytes)
    requires NulFree(a)
    ensures UpToNul(a + [0] + b) == |a|
  {
    var s := a + [0] + b;
    var n := UpToNul(s);
    assert s[|a|] == 0;
    assert forall i :: 0 <= i < |a| ==> s[i] == a[i];
  }

  lemma AsciiRoundTrip(ds: seq<Digit>)
    ensures AllDigits(Ascii(ds)) && FromAscii(Ascii(ds)) == ds && NulFree(Ascii(ds))
  {
  }

  lemma FrameShape(item: Item, rest: Bytes)
    ensures Frame(item) + rest == item.path + [0] + (Ascii(Digits(|item.data|)) + [0] + (item.data + rest))
  {
  }

  /** A frame in its three parts is read part by part. */
  lemma DecodesParts(path: Path, ds: Bytes, data: Bytes, rest: Bytes)
    requires NulFree(path) && NulFree(ds) && AllDigits(ds) && Value(FromAscii(ds)) == |data|
    ensures DecodeOne(path + [0] + (ds + [0] + (data + rest))) == Some((Item(path, data), rest))
  {
    var tail := ds + [0] + (data + rest);
    var s := path + [0] + tail;
    UpToNulStops(path, tail);
    assert s[|path| + 1..] == tail && s[..|path|] == path;
    UpToNulStops(ds, data + rest);
    assert tail[..|ds|] == ds && tail[|ds| + 1..] == data + rest;
    assert (data + rest)[..|data|] == data && (data + rest)[|data|..] == rest;
  }

  lemma DecodesItsFrame(item: Item, rest: Bytes)
    requires NulFree(item.path)
    ensures DecodeOne(Frame(item) + rest) == Some((item, rest))
  {
    FrameShape(item, rest);
    AsciiRoundTrip(Digits(|item.data|));
    ValueOfDigits(|item.data|);
    DecodesParts(item.path, Ascii(Digits(|item.data|)), item.data, rest);
  }

  /** The bytes of a frame: the path, NUL, the decimal length in ASCII, NUL, the data. */
  lemma FrameBytes(item: Item)
    ensures var n, ds := |item.path|, Digits(|item.data|);
            && |Frame(item)| == n + |ds| + |item.data| + 2
            && Frame(item)[..n] == item.path && Frame(item)[n] == 0
            && (forall i :: 0 <= i < |ds| ==> Frame(item)[n + 1 + i] as int == 48 + ds[i] as int)
            && Frame(item)[n + 1 + |ds|] == 0 && Frame(item)[n + 2 + |ds|..] == item.data
  {
  }

  /** One recorded file `a` with the single byte `x`. */
  lemma OneByteFile()
    ensures Encode([Item([97], [120])]) == [97, 0, 49, 0, 120]
  {
    assert Digits(1) == [1];
    assert Ascii([1]) == [49];
    assert [Item([97], [120])][1..] == [];
    assert Frame(Item([97], [120])) == [97, 0, 49, 0, 120];
  }

  lemma DecodeFrameThen(item: Item, rest: Bytes, items: seq<Item>)
    requires NulFree(item.path) && Decode(rest) == Some(items)
    ensures Decode(Frame(item) + rest) == Some([item] + items)
  {
    DecodesItsFrame(item, rest);
    assert |Frame(item)| > 0;
  }

  /** The framing loses nothing: decoding gives back the items, for paths without NUL. */
  lemma {:induction false} DecodeInvertsEncode(items: seq<Item>)
    requires forall i :: 0 <= i < |items| ==> NulFree(items[i].path)
    ensures Decode(Encode(items)) == Some(items)
  {
    if items != [] {
      DecodeInvertsEncode(items[1..]);
      DecodeFrameThen(items[0], Encode(items[1..]), items[1..]);
      assert items == [items[0]] + items[1..];
    }
  }

  // ------------------------------------------------------------------ sorted items

  predicate Less(a: Path, b: Path) {
    b != [] && (a == [] || a[0] < b[0] || (a[0] == b[0] && Less(a[1..], b[1..])))
  }

  lemma {:induction false} LessTotal(a: Path, b: Path)
    ensures a == b || Less(a, b) || Less(b, a)
    ensures !(Less(a, b) && Less(b, a)) && !Less(a, a)
  {
    if a != [] && b != [] {
      LessTotal(a[1..], b[1..]);
      assert a == [a[0]] + a[1..] && b == [b[0]] + b[1..];
    }
    if a != [] {
      LessTotal(a[1..], a[1..]);
    }
  }

  lemma {:induction false} LessTransitive(a: Path, b: Path, c: Path)
    requires Less(a, b) && Less(b, c)
    ensures Less(a, c)
  {
    if a != [] && a[0] == b[0] && b[0] == c[0] {
      LessTransitive(a[1..], b[1..], c[1..]);
    }
  }

  /** `a` and `b` agree on `k` bytes, and there `a` ends or is smaller. */
  ghost predicate SmallerAt(a: Path, b: Path, k: int) {
    0 <= k <= |a| && k < |b| && a[..k] == b[..k] && (k == |a| || a[k] < b[k])
  }

  /** The order is the lexicographic one. */
  lemma {:induction false} LessExactly(a: Path, b: Path)
    ensures Less(a, b) <==> exists k :: SmallerAt(a, b, k)
  {
    if a == [] {
      assert b != [] ==> SmallerAt(a, b, 0);
    } else if b != [] && a[0] == b[0] {
      LessExactly(a[1..], b[1..]);
      if k :| SmallerAt(a[1..], b[1..], k) {
        assert a[..k + 1] == [a[0]] + a[1..][..k] && b[..k + 1] == [b[0]] + b[1..][..k];
        assert SmallerAt(a, b, k + 1);
      }
      if k :| SmallerAt(a, b, k) {
        assert a[1..][..k - 1] == a[..k][1..] && b[1..][..k - 1] == b[..k][1..];
        assert SmallerAt(a[1..], b[1..], k - 1);
      }
    } else if b != [] {
      if a[0] < b[0] {
        assert SmallerAt(a, b, 0);
      }
      if k :| SmallerAt(a, b, k) {
        assert k > 0 ==> a[..k][0] == b[..k][0];
      }
    }
  }

  /** `items` lists the map in ascending order of path. */
  ghost predicate IsItems(items: seq<Item>, m: map<Path, Bytes>) {
    && (forall i, j :: 0 <= i < j < |items| ==> Less(items[i].path, items[j].path))
    && (forall i :: 0 <= i < |items| ==> items[i].path in m && m[items[i].path] == items[i].data)
    && (forall p :: p in m ==> exists i :: 0 <= i < |items| && items[i].path == p)
  }

  /** The listing of a map is unique, so the stream depends only on the recorded inputs. */
  lemma {:induction false} ItemsUnique(a: seq<Item>, b: seq<Item>, m: map<Path, Bytes>)
    requires IsItems(a, m) && IsItems(b, m)
    ensures a == b
    decreases |a|
  {
    if a != [] || b != [] {
      var rest := SameHeadAndRest(a, b, m);
      ItemsUnique(a[1..], b[1..], rest);
      Rejoin(a, b);
    }
  }

  lemma Rejoin(a: seq<Item>, b: seq<Item>)
    requires a != [] && b != [] && a[0] == b[0] && a[1..] == b[1..]
    ensures a == b
  {
    assert a == [a[0]] + a[1..] && b == [b[0]] + b[1..];
  }

  lemma SameHeadAndRest(a: seq<Item>, b: seq<Item>, m: map<Path, Bytes>) returns (rest: map<Path, Bytes>)
    requires IsItems(a, m) && IsItems(b, m) && (a != [] || b != [])
    ensures a != [] && b != [] && a[0] == b[0] && IsItems(a[1..], rest) && IsItems(b[1..], rest)
  {
    if a != [] {
      SameHead(a, b, m);
    } else {
      SameHead(b, a, m);
    }
    RestIsItems(a, m);
    RestIsItems(b, m);
    rest := m - {a[0].path};
  }

  lemma SameHead(a: seq<Item>, b: seq<Item>, m: map<Path, Bytes>)
    requires IsItems(a, m) && IsItems(b, m) && a != []
    ensures b != [] && a[0] == b[0]
  {
    assert a[0].path in m;
    var i :| 0 <= i < |b| && b[i].path == a[0].path;
    assert b[0].path in m;
    var j :| 0 <= j < |a| && a[j].path == b[0].path;
    LessTotal(a[0].path, b[0].path);
  }

  lemma RestIsItems(a: seq<Item>, m: map<Path, Bytes>)
    requires IsItems(a, m) && a != []
    ensures IsItems(a[1..], m - {a[0].path})
  {
    var p, rest := a[0].path, m - {a[0].path};
    LessTotal(p, p);
    forall i | 0 <= i < |a[1..]|
      ensures a[1..][i].path in rest && rest[a[1..][i].path] == a[1..][i].data
    {
      assert a[1..][i] == a[i + 1] && Less(a[0].path, a[i + 1].path);
    }
    forall q | q in rest
      ensures exists i :: 0 <= i < |a[1..]| && a[1..][i].path == q
    {
      var i :| 0 <= i < |a| && a[i].path == q;
      assert a[1..][i - 1].path == q;
    }
  }

  lemma ItemsDetermineMap(items: seq<Item>, m: map<Path, Bytes>, n: map<Path, Bytes>)
    requires IsItems(items, m) && IsItems(items, n)
    ensures m == n
  {
    forall p
      ensures p in m <==> p in n
      ensures p in m && p in n ==> m[p] == n[p]
    {
      if p in m {
        var i :| 0 <= i < |items| && items[i].path == p;
      }
      if p in n {
        var i :| 0 <= i < |items| && items[i].path == p;
      }
    }
  }

  /** Injectivity: two recorded input maps with the same stream are the same map. */
  lemma StreamDeterminesInputs(m: map<Path, Bytes>, n: map<Path, Bytes>, a: seq<Item>, b: seq<Item>)
    requires IsItems(a, m) && IsItems(b, n) && Encode(a) == Encode(b)
    requires (forall p :: p in m ==> NulFree(p)) && (forall p :: p in n ==> NulFree(p))
    ensures m == n
  {
    DecodeInvertsEncode(a);
    DecodeInvertsEncode(b);
    ItemsDetermineMap(a, m, n);
  }

  // ------------------------------------------------------------------ first reads

  /** The bytes each path had when it was first read. */
  ghost function FirstReads(history: seq<Item>): map<Path, Bytes> {
    if history == [] then map[]
    else
      var before := FirstReads(history[..|history| - 1]);
      var last := history[|history| - 1];
      if last.path in before then before else before[last.path := last.data]
  }

  lemma {:induction false} FirstReadsMeaning(history: seq<Item>, p: Path)
    ensures p in FirstReads(history) <==> exists i :: 0 <= i < |history| && history[i].path == p
    ensures p in FirstReads(history) ==>
              exists i :: 0 <= i < |history| && history[i] == Item(p, FirstReads(history)[p])
                          && forall j :: 0 <= j < i ==> history[j].path != p
  {
    if history != [] {
      var n := |history| - 1;
      var front := history[..n];
      FirstReadsMeaning(front, p);
      assert forall i :: 0 <= i < n ==> front[i] == history[i];
      if p in FirstReads(front) {
        var i :| 0 <= i < n && front[i] == Item(p, FirstReads(front)[p]) && forall j :: 0 <= j < i ==> front[j].path != p;
        assert history[i] == Item(p, FirstReads(history)[p]);
      } else if history[n].path == p {
        assert forall j :: 0 <= j < n ==> front[j].path != p;
        assert history[n] == Item(p, FirstReads(history)[p]);
      }
    }
  }

  /** While no file changes, neither the order nor the number of reads matters. */
  lemma ReadOrderIsIrrelevant(a: seq<Item>, b: seq<Item>)
    requires forall x :: x in a <==> x in b
    requires forall x, y :: x in a && y in a && x.path == y.path ==> x == y
    ensures FirstReads(a) == FirstReads(b)
  {
    forall p
      ensures p in FirstReads(a) <==> p in FirstReads(b)
      ensures p in FirstReads(a) && p in FirstReads(b) ==> FirstReads(a)[p] == FirstReads(b)[p]
    {
      FirstReadsMeaning(a, p);
      FirstReadsMeaning(b, p);
      if p in FirstReads(a) {
        assert Item(p, FirstReads(a)[p]) in b;
      }
      if p in FirstReads(b) {
        assert Item(p, FirstReads(b)[p]) in a;
      }
    }
  }

  // ------------------------------------------------------------------ the recorder

  datatype ReadError = EscapesRepository | NotTracked | NotUtf8

  class InputRecorder {
    const tracked: set<Path>
    const decode: Bytes -> Option<string>
    var inputs: map<Path, Bytes>
    ghost var history: seq<Item>

    ghost predicate Valid()
      reads this
    {
      inputs == FirstReads(history) && forall p :: p in inputs ==> p in tracked
    }

    constructor (tracked: set<Path>, decode: Bytes -> Option<string>)
      ensures Valid() && history == [] && this.tracked == tracked && this.decode == decode
    {
      this.tracked, this.decode := tracked, decode;
      inputs, history := map[], [];
    }

    /** Reads a path whose bytes on disk are now `disk`. Only tracked paths inside the
        repository are read, a path read before keeps the bytes of its first read, and bytes
        that are no text are recorded all the same. */
    method Read(relative: Option<Path>, disk: Bytes) returns (r: Result<string, ReadError>)
      requires Valid()
      modifies this
      ensures Valid()
      ensures relative.None? ==> r == Err(EscapesRepository) && inputs == old(inputs)
      ensures relative.Some? && relative.value !in tracked ==> r == Err(NotTracked) && inputs == old(inputs)
      ensures relative.Some? && relative.value in tracked ==>
                var data := if relative.value in old(inputs) then old(inputs)[relative.value] else disk;
                && history == old(history) + [Item(relative.value, disk)]
                && inputs == old(inputs)[relative.value := data]
                && r == match decode(data) { case Some(text) => Ok(text) case None => Err(NotUtf8) }
    {
      if relative.None? {
        return Err(EscapesRepository);
      }
      var path := relative.value;
      if path !in tracked {
        return Err(NotTracked);
      }
      history := history + [Item(path, disk)];
      assert history[..|history| - 1] == old(history);
      if path !in inputs {
        inputs := inputs[path := disk];
      }
      match decode(inputs[path]) {
        case Some(text) => r := Ok(text);
        case None => r := Err(NotUtf8);
      }
    }

    /** The bytes handed to the hash: the frames of all inputs in ascending order of path. */
    method DigestInput() returns (stream: Bytes)
      requires Valid()
      ensures exists items :: IsItems(items, inputs) && stream == Encode(items)
    {
      stream := [];
      ghost var items: seq<Item> := [];
      var left := inputs.Keys;
      while left != {}
        invariant left <= inputs.Keys && stream == Encode(items)
        invariant IsItems(items, inputs - left)
        invariant forall i, p :: 0 <= i < |items| && p in left ==> Less(items[i].path, p)
        decreases |left|
      {
        var path := LeastPath(left);
        var item := Item(path, inputs[path]);
        EncodeSnoc(items, item);
        ListNext(items, inputs, left, item);
        stream := stream + Frame(item);
        items := items + [item];
        left := left - {path};
      }
      assert inputs - left == inputs;
    }
  }

  lemma {:induction false} EncodeSnoc(items: seq<Item>, item: Item)
    ensures Encode(items + [item]) == Encode(items) + Frame(item)
  {
    if items == [] {
      assert [] + [item] == [item];
      assert Encode([item]) == Frame(item) + Encode([item][1..]);
    } else {
      EncodeSnoc(items[1..], item);
      var all := items + [item];
      assert all[0] == items[0] && all[1..] == items[1..] + [item];
      Regroup(Frame(items[0]), Encode(items[1..]), Frame(item));
    }
  }

  lemma Regroup(a: Bytes, b: Bytes, c: Bytes)
    ensures a + (b + c) == (a + b) + c
  {
  }

  lemma ListNext(items: seq<Item>, m: map<Path, Bytes>, left: set<Path>, item: Item)
    requires left <= m.Keys && IsItems(items, m - left)
    requires forall i, p :: 0 <= i < |items| && p in left ==> Less(items[i].path, p)
    requires item.path in left && item.data == m[item.path]
    requires forall p :: p in left ==> p == item.path || Less(item.path, p)
    ensures IsItems(items + [item], m - (left - {item.path}))
    ensures forall i, p :: 0 <= i < |items + [item]| && p in left - {item.path} ==> Less((items + [item])[i].path, p)
  {
    var more, part := items + [item], m - (left - {item.path});
    assert forall i :: 0 <= i < |items| ==> more[i] == items[i];
    forall p | p in part
      ensures exists i :: 0 <= i < |more| && more[i].path == p
    {
      if p == item.path {
        assert more[|items|].path == p;
      } else {
        var done := m - left;
        assert p in done;
        var i :| 0 <= i < |items| && items[i].path == p;
        assert more[i].path == p;
      }
    }
  }

  method LeastPath(s: set<Path>) returns (least: Path)
    requires s != {}
    ensures least in s && forall p :: p in s ==> p == least || Less(least, p)
  {
    assert (forall t :: t !in s) ==> s == {};
    least :| least in s;
    var left := s - {least};
    while left != {}
      invariant left <= s && least in s && least !in left
      invariant forall p :: p in s && p !in left ==> p == least || Less(least, p)
      decreases |left|
    {
      assert (forall t :: t !in left) ==> left == {};
      var p :| p in left;
      if Less(p, least) {
        forall q | q in s && q !in left
          ensures Less(p, q)
        {
          if q != least {
            LessTransitive(p, least, q);
          }
        }
        least := p;
      } else {
        LessTotal(p, least);
      }
      left := left - {p};
    }
  }
}
