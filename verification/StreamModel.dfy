/**
  The byte format of BinaryStream for every nesting of plain values, strings, vectors and maps.

  `Encode` is the format.  `Read` is what reading into an existing object does to it: a string or plain
  value is replaced, a vector is resized and its elements are read in place, and a map keeps the entries
  whose keys are not read.
*/
module StreamModel {
  import opened Common
  import opened Arithmetic

  type byte = uint8

  const SIZE_LIMIT: nat := 0x1_0000_0000_0000_0000

  datatype Ty = PlainTy(size: nat) | StringTy | VectorTy(elem: Ty) | MapTy(key: Ty, value: Ty)

  /** A map lists its entries in the container's iteration order. */
  datatype Val = Plain(bytes: seq<byte>) | Str(chars: seq<byte>) | Vec(elems: seq<Val>) | Map(entries: seq<Entry>)

  datatype Entry = Entry(key: Val, value: Val)

  /** The key order of the maps. */
  type Order = (Val, Val) -> bool

  ghost predicate StrictOrder(lt: Order) {
    && (forall a :: !lt(a, a))
    && (forall a, b, c :: lt(a, b) && lt(b, c) ==> lt(a, c))
    && (forall a, b :: a != b ==> lt(a, b) || lt(b, a))
  }

  predicate Sorted(lt: Order, entries: seq<Entry>) {
    forall i, j | 0 <= i < j < |entries| :: lt(entries[i].key, entries[j].key)
  }

  predicate HasType(lt: Order, v: Val, t: Ty)
    decreases v
  {
    match t
    case PlainTy(n) => v.Plain? && |v.bytes| == n
    case StringTy => v.Str? && |v.chars| < SIZE_LIMIT
    case VectorTy(e) => v.Vec? && |v.elems| < SIZE_LIMIT && forall x | x in v.elems :: HasType(lt, x, e)
    case MapTy(k, w) =>
      && v.Map? && |v.entries| < SIZE_LIMIT && Sorted(lt, v.entries)
      && forall x | x in v.entries :: HasType(lt, x.key, k) && HasType(lt, x.value, w)
  }

  // ---------------------------------------------------------------------------------------------
  // Writing
  // ---------------------------------------------------------------------------------------------

  /** The k low bytes of n, lowest first. */
  function LittleEndian(n: nat, k: nat): (s: seq<byte>)
    ensures |s| == k
  {
    if k == 0 then [] else [n % 256] + LittleEndian(n / 256, k - 1)
  }

  function FromLittleEndian(s: seq<byte>): nat {
    if s == [] then 0 else s[0] + 256 * FromLittleEndian(s[1..])
  }

  function EncodeSize(n: nat): (s: seq<byte>)
    ensures |s| == 8
  {
    LittleEndian(n, 8)
  }

  function Encode(v: Val): seq<byte>
    decreases v, 1, 0
  {
    match v
    case Plain(bytes) => bytes
    case Str(chars) => EncodeSize(|chars|) + chars
    case Vec(elems) => EncodeSize(|elems|) + EncodeElems(v, 0)
    case Map(entries) => EncodeSize(|entries|) + EncodeEntries(v, 0)
  }

  /** The elements of a vector from the i-th on. */
  function EncodeElems(v: Val, i: nat): seq<byte>
    requires v.Vec? && i <= |v.elems|
    decreases v, 0, |v.elems| - i
  {
    if i == |v.elems| then [] else Encode(v.elems[i]) + EncodeElems(v, i + 1)
  }

  function EncodeEntries(v: Val, i: nat): seq<byte>
    requires v.Map? && i <= |v.entries|
    decreases v, 0, |v.entries| - i
  {
    if i == |v.entries| then []
    else
      var e := v.entries[i];
      Encode(e.key) + Encode(e.value) + EncodeEntries(v, i + 1)
  }

  // ---------------------------------------------------------------------------------------------
  // Reading
  // ---------------------------------------------------------------------------------------------

  function Zeros(n: nat): (s: seq<byte>)
    ensures |s| == n
  {
    seq(n, _ => 0)
  }

  /** A value-initialised object. */
  function Default(t: Ty): Val {
    match t
    case PlainTy(n) => Plain(Zeros(n))
    case StringTy => Str([])
    case VectorTy(_) => Vec([])
    case MapTy(_, _) => Map([])
  }

  /** `m[key] = value`. */
  function Insert(lt: Order, entries: seq<Entry>, e: Entry): seq<Entry> {
    if entries == [] then [e]
    else if entries[0].key == e.key then [e] + entries[1..]
    else if lt(e.key, entries[0].key) then [e] + entries
    else [entries[0]] + Insert(lt, entries[1..], e)
  }

  function TakeBytes(s: seq<byte>, n: nat): (r: Option<(seq<byte>, seq<byte>)>) {
    if |s| < n then None else Some((s[..n], s[n..]))
  }

  function ReadSize(s: seq<byte>): (r: Option<(nat, seq<byte>)>) {
    match TakeBytes(s, 8)
    case None => None
    case Some((bytes, rest)) => Some((FromLittleEndian(bytes), rest))
  }

  /** The object `existing` after reading into it, and the bytes left; None if the bytes run out. */
  function Read(lt: Order, t: Ty, existing: Val, s: seq<byte>): Option<(Val, seq<byte>)>
    decreases t, 1, 0
  {
    match t
    case PlainTy(n) => (match TakeBytes(s, n)
      case None => None
      case Some((bytes, rest)) => Some((Plain(bytes), rest)))
    case StringTy => (match ReadSize(s)
      case None => None
      case Some((n, rest)) =>
        match TakeBytes(rest, n)
        case None => None
        case Some((chars, rest')) => Some((Str(chars), rest')))
    case VectorTy(e) => (match ReadSize(s)
      case None => None
      case Some((n, rest)) => ReadElems(lt, t, if existing.Vec? then existing.elems else [], [], n, rest))
    case MapTy(_, _) => (match ReadSize(s)
      case None => None
      case Some((n, rest)) => ReadEntries(lt, t, if existing.Map? then existing.entries else [], n, rest))
  }

  /** The slot the next element is read into. */
  function Slot(t: Ty, elems: seq<Val>, i: nat): Val
    requires t.VectorTy?
  {
    if i < |elems| then elems[i] else Default(t.elem)
  }

  /** Reads elements until n are done; `elems` are those the vector had. */
  function ReadElems(lt: Order, t: Ty, elems: seq<Val>, done: seq<Val>, n: nat, s: seq<byte>): Option<(Val, seq<byte>)>
    requires t.VectorTy? && |done| <= n
    decreases t, 0, n - |done|
  {
    if |done| == n then Some((Vec(done), s))
    else
      match Read(lt, t.elem, Slot(t, elems, |done|), s)
      case None => None
      case Some((x, rest)) => ReadElems(lt, t, elems, done + [x], n, rest)
  }

  /** One key and one value, each read into a fresh object. */
  function ReadEntry(lt: Order, t: Ty, s: seq<byte>): Option<(Entry, seq<byte>)>
    requires t.MapTy?
    decreases t, 0, 0
  {
    match Read(lt, t.key, Default(t.key), s)
    case None => None
    case Some((k, rest)) =>
      match Read(lt, t.value, Default(t.value), rest)
      case None => None
      case Some((w, rest')) => Some((Entry(k, w), rest'))
  }

  /** Reads n entries into the map. */
  function ReadEntries(lt: Order, t: Ty, entries: seq<Entry>, n: nat, s: seq<byte>): Option<(Val, seq<byte>)>
    requires t.MapTy?
    decreases t, 0, n
  {
    if n == 0 then Some((Map(entries), s))
    else
      match ReadEntry(lt, t, s)
      case None => None
      case Some((e, rest)) => ReadEntries(lt, t, Insert(lt, entries, e), n - 1, rest)
  }

  // ---------------------------------------------------------------------------------------------
  // The format
  // ---------------------------------------------------------------------------------------------

  lemma {:induction false} ByteAt(n: nat, k: nat, i: nat)
    requires i < k
    ensures LittleEndian(n, k)[i] as int == n / Pow256(i) % 256
  {
    if i > 0 {
      ByteAt(n / 256, k - 1, i - 1);
      DivTwice(n, Pow256(i - 1));
    }
  }

  lemma DivTwice(n: nat, d: nat)
    requires d > 0
    ensures n / 256 / d == n / (256 * d)
  {
    var q, r := n / 256 / d, n / 256 % d;
    assert n / 256 == q * d + r;
    assert n == q * (256 * d) + (256 * r + n % 256);
    QuotientIs(n, 256 * d, q, 256 * r + n % 256);
  }

  /** A size is written as its eight bytes, the lowest first. */
  lemma SizeBytes(n: nat, i: nat)
    requires i < 8
    ensures EncodeSize(n)[i] as int == n / Pow256(i) % 256
  {
    ByteAt(n, 8, i);
  }

  lemma {:induction false} ElemsGrow(elems: seq<Val>, x: Val, i: nat)
    requires i <= |elems|
    ensures EncodeElems(Vec(elems + [x]), i) == EncodeElems(Vec(elems), i) + Encode(x)
    decreases |elems| - i
  {
    var v, w := Vec(elems), Vec(elems + [x]);
    if i == |elems| {
      assert EncodeElems(w, i) == Encode(x) + EncodeElems(w, i + 1);
    } else {
      ElemsGrow(elems, x, i + 1);
    }
  }

  /** One more element adds its bytes at the end, and 1 to the size in front. */
  lemma VectorGrows(elems: seq<Val>, x: Val)
    ensures Encode(Vec(elems + [x])) == EncodeSize(|elems| + 1) + Encode(Vec(elems))[8..] + Encode(x)
  {
    ElemsGrow(elems, x, 0);
  }

  lemma {:induction false} EntriesGrow(entries: seq<Entry>, e: Entry, i: nat)
    requires i <= |entries|
    ensures EncodeEntries(Map(entries + [e]), i) == EncodeEntries(Map(entries), i) + Encode(e.key) + Encode(e.value)
    decreases |entries| - i
  {
    var v, w := Map(entries), Map(entries + [e]);
    if i == |entries| {
      assert EncodeEntries(w, i) == Encode(e.key) + Encode(e.value) + EncodeEntries(w, i + 1);
    } else {
      EntriesGrow(entries, e, i + 1);
    }
  }

  /** One more entry adds the bytes of its key and then of its value. */
  lemma MapGrows(entries: seq<Entry>, e: Entry)
    ensures Encode(Map(entries + [e]))
         == EncodeSize(|entries| + 1) + Encode(Map(entries))[8..] + Encode(e.key) + Encode(e.value)
  {
    EntriesGrow(entries, e, 0);
  }

  // ---------------------------------------------------------------------------------------------
  // Reading back what was written
  // ---------------------------------------------------------------------------------------------

  lemma {:induction false} LittleEndianInverse(n: nat, k: nat, limit: nat)
    requires n < limit && limit == Pow256(k)
    ensures FromLittleEndian(LittleEndian(n, k)) == n
    decreases k
  {
    if k > 0 {
      LittleEndianInverse(n / 256, k - 1, Pow256(k - 1));
      assert LittleEndian(n, k)[1..] == LittleEndian(n / 256, k - 1);
    }
  }

  function Pow256(k: nat): (p: nat)
    ensures p > 0
  {
    if k == 0 then 1 else 256 * Pow256(k - 1)
  }

  lemma SizeReadsBack(n: nat, rest: seq<byte>)
    requires n < SIZE_LIMIT
    ensures ReadSize(EncodeSize(n) + rest) == Some((n, rest))
  {
    assert Pow256(8) == SIZE_LIMIT by {
      assert Pow256(4) == 0x1_0000_0000;
    }
    LittleEndianInverse(n, 8, SIZE_LIMIT);
    assert (EncodeSize(n) + rest)[..8] == EncodeSize(n) && (EncodeSize(n) + rest)[8..] == rest;
  }

  /** What reading v leaves in an object that held `old`. */
  function Merge(lt: Order, t: Ty, existing: Val, v: Val): Val
    decreases v, 1, 0
  {
    if t.VectorTy? && v.Vec? then Vec(MergeElems(lt, t, if existing.Vec? then existing.elems else [], v, |v.elems|))
    else if t.MapTy? && v.Map? then Map(InsertAll(lt, if existing.Map? then existing.entries else [], v.entries))
    else v
  }

  function MergeElems(lt: Order, t: Ty, elems: seq<Val>, v: Val, n: nat): (r: seq<Val>)
    requires t.VectorTy? && v.Vec? && n <= |v.elems|
    ensures |r| == n
    decreases v, 0, n
  {
    if n == 0 then []
    else MergeElems(lt, t, elems, v, n - 1) + [Merge(lt, t.elem, Slot(t, elems, n - 1), v.elems[n - 1])]
  }

  function InsertAll(lt: Order, entries: seq<Entry>, more: seq<Entry>): seq<Entry>
    decreases |more|
  {
    if more == [] then entries else InsertAll(lt, Insert(lt, entries, more[0]), more[1..])
  }

  lemma {:induction false} InsertAtEnd(lt: Order, entries: seq<Entry>, e: Entry)
    requires StrictOrder(lt) && forall x | x in entries :: lt(x.key, e.key)
    ensures Insert(lt, entries, e) == entries + [e]
  {
    if entries != [] {
      InsertAtEnd(lt, entries[1..], e);
      assert entries == [entries[0]] + entries[1..];
    }
  }

  lemma {:induction false} InsertAllSorted(lt: Order, entries: seq<Entry>, more: seq<Entry>)
    requires StrictOrder(lt) && Sorted(lt, entries + more)
    ensures InsertAll(lt, entries, more) == entries + more
    decreases |more|
  {
    if more != [] {
      forall x | x in entries ensures lt(x.key, more[0].key) {
        var i :| 0 <= i < |entries| && entries[i] == x;
        assert (entries + more)[i] == x && (entries + more)[|entries|] == more[0];
      }
      InsertAtEnd(lt, entries, more[0]);
      assert (entries + [more[0]]) + more[1..] == entries + more;
      InsertAllSorted(lt, entries + [more[0]], more[1..]);
    }
  }

  /** Merging into a value-initialised object gives the value itself. */
  lemma {:induction false} MergeIntoDefault(lt: Order, t: Ty, v: Val)
    requires StrictOrder(lt) && HasType(lt, v, t)
    ensures Merge(lt, t, Default(t), v) == v
    decreases v, 1, 0
  {
    if t.VectorTy? {
      MergeElemsIntoDefault(lt, t, v, |v.elems|);
      assert v.elems[..|v.elems|] == v.elems;
    } else if t.MapTy? {
      assert [] + v.entries == v.entries;
      InsertAllSorted(lt, [], v.entries);
    }
  }

  lemma {:induction false} MergeElemsIntoDefault(lt: Order, t: Ty, v: Val, n: nat)
    requires StrictOrder(lt) && t.VectorTy? && HasType(lt, v, t) && n <= |v.elems|
    ensures MergeElems(lt, t, [], v, n) == v.elems[..n]
    decreases v, 0, n
  {
    if n > 0 {
      MergeElemsIntoDefault(lt, t, v, n - 1);
      assert v.elems[n - 1] in v.elems;
      MergeIntoDefault(lt, t.elem, v.elems[n - 1]);
    }
  }

  lemma TakeFront(a: seq<byte>, b: seq<byte>)
    ensures TakeBytes(a + b, |a|) == Some((a, b))
  {}

  lemma StringReadsBack(chars: seq<byte>, rest: seq<byte>)
    requires |chars| < SIZE_LIMIT
    ensures var s := EncodeSize(|chars|) + (chars + rest);
            ReadSize(s) == Some((|chars|, chars + rest)) && TakeBytes(chars + rest, |chars|) == Some((chars, rest))
  {
    SizeReadsBack(|chars|, chars + rest);
    TakeFront(chars, rest);
  }

  /** Reading what was written into any object merges it in, and leaves exactly the bytes that follow. */
  lemma {:induction false} ReadMerges(lt: Order, t: Ty, existing: Val, v: Val, rest: seq<byte>)
    requires StrictOrder(lt) && HasType(lt, v, t)
    ensures Read(lt, t, existing, Encode(v) + rest) == Some((Merge(lt, t, existing, v), rest))
    decreases v, 1, 0
  {
    match v
    case Plain(bytes) =>
      TakeFront(bytes, rest);
    case Str(chars) =>
      assert Encode(v) + rest == EncodeSize(|chars|) + (chars + rest);
      StringReadsBack(chars, rest);
    case Vec(elems) =>
      assert Encode(v) + rest == EncodeSize(|elems|) + (EncodeElems(v, 0) + rest);
      SizeReadsBack(|elems|, EncodeElems(v, 0) + rest);
      ReadElemsMerge(lt, t, if existing.Vec? then existing.elems else [], v, 0, rest);
    case Map(entries) =>
      assert Encode(v) + rest == EncodeSize(|entries|) + (EncodeEntries(v, 0) + rest);
      SizeReadsBack(|entries|, EncodeEntries(v, 0) + rest);
      ReadEntriesMerge(lt, t, if existing.Map? then existing.entries else [], v, 0, rest);
      assert entries[0..] == entries;
  }

  lemma {:induction false} ReadElemsMerge(lt: Order, t: Ty, elems: seq<Val>, v: Val, i: nat, rest: seq<byte>)
    requires StrictOrder(lt) && t.VectorTy? && HasType(lt, v, t) && i <= |v.elems|
    ensures ReadElems(lt, t, elems, MergeElems(lt, t, elems, v, i), |v.elems|, EncodeElems(v, i) + rest)
            == Some((Vec(MergeElems(lt, t, elems, v, |v.elems|)), rest))
    decreases v, 0, |v.elems| - i
  {
    if i == |v.elems| {
      assert [] + rest == rest;
    } else {
      assert v.elems[i] in v.elems;
      assert EncodeElems(v, i) + rest == Encode(v.elems[i]) + (EncodeElems(v, i + 1) + rest);
      ReadMerges(lt, t.elem, Slot(t, elems, i), v.elems[i], EncodeElems(v, i + 1) + rest);
      ReadElemsMerge(lt, t, elems, v, i + 1, rest);
    }
  }

  lemma {:induction false} EntryReadsBack(lt: Order, t: Ty, e: Entry, after: seq<byte>)
    requires StrictOrder(lt) && t.MapTy? && HasType(lt, e.key, t.key) && HasType(lt, e.value, t.value)
    ensures ReadEntry(lt, t, Encode(e.key) + (Encode(e.value) + after)) == Some((e, after))
    decreases e
  {
    RoundTrip(lt, t.key, e.key, Encode(e.value) + after);
    RoundTrip(lt, t.value, e.value, after);
  }

  /** One round of reading entries. */
  lemma ReadEntriesNext(lt: Order, t: Ty, entries: seq<Entry>, n: nat, bytes: seq<byte>, e: Entry, after: seq<byte>)
    requires t.MapTy? && n > 0 && ReadEntry(lt, t, bytes) == Some((e, after))
    ensures ReadEntries(lt, t, entries, n, bytes) == ReadEntries(lt, t, Insert(lt, entries, e), n - 1, after)
  {}

  lemma EncodeEntriesNext(v: Val, i: nat, rest: seq<byte>)
    requires v.Map? && i < |v.entries|
    ensures EncodeEntries(v, i) + rest
         == Encode(v.entries[i].key) + (Encode(v.entries[i].value) + (EncodeEntries(v, i + 1) + rest))
  {}

  lemma InsertAllNext(lt: Order, entries: seq<Entry>, more: seq<Entry>, i: nat)
    requires i < |more|
    ensures InsertAll(lt, entries, more[i..]) == InsertAll(lt, Insert(lt, entries, more[i]), more[i + 1..])
  {
    assert more[i..][0] == more[i] && more[i..][1..] == more[i + 1..];
  }

  lemma {:induction false} ReadEntriesMerge(lt: Order, t: Ty, entries: seq<Entry>, v: Val, i: nat, rest: seq<byte>)
    requires StrictOrder(lt) && t.MapTy? && HasType(lt, v, t) && i <= |v.entries|
    ensures ReadEntries(lt, t, entries, |v.entries| - i, EncodeEntries(v, i) + rest)
            == Some((Map(InsertAll(lt, entries, v.entries[i..])), rest))
    decreases v, 0, |v.entries| - i
  {
    if i == |v.entries| {
      assert [] + rest == rest;
    } else {
      var e := v.entries[i];
      assert e in v.entries;
      var bytes, after := EncodeEntries(v, i) + rest, EncodeEntries(v, i + 1) + rest;
      EncodeEntriesNext(v, i, rest);
      EntryReadsBack(lt, t, e, after);
      ReadEntriesNext(lt, t, entries, |v.entries| - i, bytes, e, after);
      ReadEntriesMerge(lt, t, Insert(lt, entries, e), v, i + 1, rest);
      InsertAllNext(lt, entries, v.entries, i);
    }
  }

  lemma {:induction false} MergedElem(lt: Order, t: Ty, elems: seq<Val>, v: Val, n: nat, i: nat)
    requires t.VectorTy? && v.Vec? && i < n <= |v.elems|
    ensures MergeElems(lt, t, elems, v, n)[i]
         == Merge(lt, t.elem, if i < |elems| then elems[i] else Default(t.elem), v.elems[i])
  {
    if i < n - 1 {
      MergedElem(lt, t, elems, v, n - 1, i);
    }
  }

  /** Reading a vector into an existing one leaves as many elements as were written; each is what reading it
      alone leaves in the existing element at its place, or in a fresh object behind the end. */
  lemma VectorReadsInPlace(lt: Order, elem: Ty, elems: seq<Val>, v: Val, rest: seq<byte>, i: nat)
    requires StrictOrder(lt) && HasType(lt, v, VectorTy(elem)) && i < |v.elems|
    ensures var r := Read(lt, VectorTy(elem), Vec(elems), Encode(v) + rest);
            && r.Some? && r.value.1 == rest && r.value.0.Vec? && |r.value.0.elems| == |v.elems|
            && Read(lt, elem, if i < |elems| then elems[i] else Default(elem), Encode(v.elems[i]))
               == Some((r.value.0.elems[i], []))
  {
    ReadMerges(lt, VectorTy(elem), Vec(elems), v, rest);
    MergedElem(lt, VectorTy(elem), elems, v, |v.elems|, i);
    assert v.elems[i] in v.elems;
    ReadMerges(lt, elem, if i < |elems| then elems[i] else Default(elem), v.elems[i], []);
    assert Encode(v.elems[i]) + [] == Encode(v.elems[i]);
  }

  /** Reading back into a fresh object gives the value that was written, for every nesting of types. */
  lemma {:induction false} RoundTrip(lt: Order, t: Ty, v: Val, rest: seq<byte>)
    requires StrictOrder(lt) && HasType(lt, v, t)
    ensures Read(lt, t, Default(t), Encode(v) + rest) == Some((v, rest))
    decreases v, 2, 0
  {
    ReadMerges(lt, t, Default(t), v, rest);
    MergeIntoDefault(lt, t, v);
  }

  // ---------------------------------------------------------------------------------------------
  // Reading into a map that is not empty
  // ---------------------------------------------------------------------------------------------

  function Lookup(entries: seq<Entry>, k: Val): Option<Val> {
    if entries == [] then None else if entries[0].key == k then Some(entries[0].value) else Lookup(entries[1..], k)
  }

  lemma {:induction false} InsertLookup(lt: Order, entries: seq<Entry>, e: Entry, k: Val)
    requires StrictOrder(lt) && Sorted(lt, entries)
    ensures Lookup(Insert(lt, entries, e), k) == if k == e.key then Some(e.value) else Lookup(entries, k)
  {
    if entries != [] && entries[0].key != e.key && !lt(e.key, entries[0].key) {
      InsertLookup(lt, entries[1..], e, k);
    }
  }

  lemma {:induction false} InsertKeys(lt: Order, entries: seq<Entry>, e: Entry)
    ensures forall x | x in Insert(lt, entries, e) :: x == e || x in entries
  {
    if entries != [] {
      InsertKeys(lt, entries[1..], e);
    }
  }

  lemma SortedCons(lt: Order, x: Entry, tail: seq<Entry>)
    requires Sorted(lt, tail) && forall y | y in tail :: lt(x.key, y.key)
    ensures Sorted(lt, [x] + tail)
  {
    var s := [x] + tail;
    forall i, j | 0 <= i < j < |s| ensures lt(s[i].key, s[j].key) {
      assert s[j] in tail;
    }
  }

  lemma {:induction false} InsertSorted(lt: Order, entries: seq<Entry>, e: Entry)
    requires StrictOrder(lt) && Sorted(lt, entries)
    ensures Sorted(lt, Insert(lt, entries, e))
  {
    if entries != [] {
      var head, tail := entries[0], entries[1..];
      forall y | y in tail ensures lt(head.key, y.key) {
        var j :| 0 <= j < |tail| && tail[j] == y;
        assert entries[j + 1] == y;
      }
      if head.key == e.key {
        SortedCons(lt, e, tail);
      } else if lt(e.key, head.key) {
        SortedCons(lt, e, entries);
      } else {
        InsertSorted(lt, tail, e);
        InsertKeys(lt, tail, e);
        SortedCons(lt, head, Insert(lt, tail, e));
      }
    }
  }

  /** A map read into a map overrides it: the keys read get the values read, the others keep theirs; and
      the result is again in key order. */
  lemma {:induction false} InsertAllOverrides(lt: Order, entries: seq<Entry>, more: seq<Entry>, k: Val)
    requires StrictOrder(lt) && Sorted(lt, entries) && Sorted(lt, more)
    ensures Sorted(lt, InsertAll(lt, entries, more))
    ensures Lookup(InsertAll(lt, entries, more), k)
         == if Lookup(more, k).Some? then Lookup(more, k) else Lookup(entries, k)
    decreases |more|
  {
    if more != [] {
      InsertSorted(lt, entries, more[0]);
      InsertLookup(lt, entries, more[0], k);
      InsertAllOverrides(lt, Insert(lt, entries, more[0]), more[1..], k);
      if Lookup(more[1..], k).Some? {
        LookupIsThere(more[1..], k);
      }
    }
  }

  lemma {:induction false} LookupIsThere(entries: seq<Entry>, k: Val)
    requires Lookup(entries, k).Some?
    ensures exists i | 0 <= i < |entries| :: entries[i].key == k
  {
    if entries[0].key != k {
      LookupIsThere(entries[1..], k);
      var i :| 0 <= i < |entries[1..]| && entries[1..][i].key == k;
      assert entries[i + 1].key == k;
    }
  }

  /** Reading a written map into a map that holds `entries`. */
  lemma MapReadOverrides(lt: Order, t: Ty, entries: seq<Entry>, v: Val, rest: seq<byte>, k: Val)
    requires StrictOrder(lt) && t.MapTy? && HasType(lt, v, t) && Sorted(lt, entries)
    ensures var r := Read(lt, t, Map(entries), Encode(v) + rest);
            && r.Some? && r.value.1 == rest && r.value.0.Map? && Sorted(lt, r.value.0.entries)
            && Lookup(r.value.0.entries, k)
               == if Lookup(v.entries, k).Some? then Lookup(v.entries, k) else Lookup(entries, k)
  {
    ReadMerges(lt, t, Map(entries), v, rest);
    InsertAllOverrides(lt, entries, v.entries, k);
  }
}
