/**
  The stream object: the bytes written so far and the reading position.  Writing appends; reading takes
  from the position on, filling vectors and maps in loops.
*/
module BinaryStream {
  import opened Common
  import opened StreamModel

  class BinaryStream {
    var bytes: seq<byte>
    var pos: nat

    ghost predicate Valid()
      reads this
    {
      pos <= |bytes|
    }

    constructor ()
      ensures Valid() && bytes == [] && pos == 0
    {
      bytes, pos := [], 0;
    }

    /** What has been written and not yet read. */
    ghost function Unread(): seq<byte>
      requires Valid()
      reads this
    {
      bytes[pos..]
    }

    method Append(s: seq<byte>)
      requires Valid()
      modifies this`bytes
      ensures Valid() && bytes == old(bytes) + s
    {
      bytes := bytes + s;
    }

    method Write(v: Val)
      requires Valid()
      modifies this`bytes
      ensures Valid() && bytes == old(bytes) + Encode(v)
      decreases v, 1
    {
      match v
      case Plain(b) => Append(b);
      case Str(chars) =>
        Append(EncodeSize(|chars|));
        Append(chars);
      case Vec(_) => WriteVector(v);
      case Map(_) => WriteMap(v);
    }

    method WriteVector(v: Val)
      requires Valid() && v.Vec?
      modifies this`bytes
      ensures Valid() && bytes == old(bytes) + Encode(v)
      decreases v, 0
    {
      Append(EncodeSize(|v.elems|));
      var i := 0;
      while i < |v.elems|
        invariant Valid() && 0 <= i <= |v.elems|
        invariant bytes + EncodeElems(v, i) == old(bytes) + Encode(v)
      {
        ghost var before := bytes;
        Write(v.elems[i]);
        assert before + EncodeElems(v, i) == bytes + EncodeElems(v, i + 1);
        i := i + 1;
      }
    }

    method WriteMap(v: Val)
      requires Valid() && v.Map?
      modifies this`bytes
      ensures Valid() && bytes == old(bytes) + Encode(v)
      decreases v, 0
    {
      Append(EncodeSize(|v.entries|));
      var i := 0;
      while i < |v.entries|
        invariant Valid() && 0 <= i <= |v.entries|
        invariant bytes + EncodeEntries(v, i) == old(bytes) + Encode(v)
      {
        ghost var before := bytes;
        Write(v.entries[i].key);
        Write(v.entries[i].value);
        assert before + EncodeEntries(v, i) == bytes + EncodeEntries(v, i + 1);
        i := i + 1;
      }
    }

    /** The next n bytes, if there are so many. */
    method Take(n: nat) returns (r: Option<seq<byte>>)
      requires Valid()
      modifies this`pos
      ensures Valid()
      ensures r.None? <==> TakeBytes(old(Unread()), n).None?
      ensures r.Some? ==> TakeBytes(old(Unread()), n) == Some((r.value, Unread()))
    {
      if |bytes| - pos < n {
        return None;
      }
      assert Unread()[..n] == bytes[pos..pos + n] && Unread()[n..] == bytes[pos + n..];
      r := Some(bytes[pos..pos + n]);
      pos := pos + n;
    }

    method TakeSize() returns (r: Option<nat>)
      requires Valid()
      modifies this`pos
      ensures Valid()
      ensures r.None? <==> StreamModel.ReadSize(old(Unread())).None?
      ensures r.Some? ==> StreamModel.ReadSize(old(Unread())) == Some((r.value, Unread()))
    {
      var s := Take(8);
      r := if s.None? then None else Some(FromLittleEndian(s.value));
    }

    /** Reads a value of type t into an object that holds `into`. */
    method Read(lt: Order, t: Ty, into: Val) returns (r: Option<Val>)
      requires Valid()
      modifies this`pos
      ensures Valid()
      ensures r.None? <==> StreamModel.Read(lt, t, into, old(Unread())).None?
      ensures r.Some? ==> StreamModel.Read(lt, t, into, old(Unread())) == Some((r.value, Unread()))
      decreases t, 2
    {
      match t
      case PlainTy(n) =>
        var s := Take(n);
        return if s.None? then None else Some(Plain(s.value));
      case StringTy =>
        var n := TakeSize();
        if n.None? {
          return None;
        }
        var s := Take(n.value);
        return if s.None? then None else Some(Str(s.value));
      case VectorTy(_) => r := ReadVector(lt, t, into);
      case MapTy(_, _) => r := ReadMap(lt, t, into);
    }

    method ReadVector(lt: Order, t: Ty, into: Val) returns (r: Option<Val>)
      requires Valid() && t.VectorTy?
      modifies this`pos
      ensures Valid()
      ensures r.None? <==> StreamModel.Read(lt, t, into, old(Unread())).None?
      ensures r.Some? ==> StreamModel.Read(lt, t, into, old(Unread())) == Some((r.value, Unread()))
      decreases t, 0
    {
      var n := TakeSize();
      if n.None? {
        return None;
      }
      var elems := if into.Vec? then into.elems else [];
      var done := [];
      while |done| < n.value
        invariant Valid() && |done| <= n.value
        invariant ReadElems(lt, t, elems, done, n.value, Unread()) == StreamModel.Read(lt, t, into, old(Unread()))
        decreases n.value - |done|
      {
        var x := Read(lt, t.elem, Slot(t, elems, |done|));
        if x.None? {
          return None;
        }
        done := done + [x.value];
      }
      return Some(Vec(done));
    }

    method ReadEntry(lt: Order, t: Ty) returns (r: Option<Entry>)
      requires Valid() && t.MapTy?
      modifies this`pos
      ensures Valid()
      ensures r.None? <==> StreamModel.ReadEntry(lt, t, old(Unread())).None?
      ensures r.Some? ==> StreamModel.ReadEntry(lt, t, old(Unread())) == Some((r.value, Unread()))
      decreases t, 0
    {
      var k := Read(lt, t.key, Default(t.key));
      if k.None? {
        return None;
      }
      var w := Read(lt, t.value, Default(t.value));
      if w.None? {
        return None;
      }
      return Some(Entry(k.value, w.value));
    }

    method ReadMap(lt: Order, t: Ty, into: Val) returns (r: Option<Val>)
      requires Valid() && t.MapTy?
      modifies this`pos
      ensures Valid()
      ensures r.None? <==> StreamModel.Read(lt, t, into, old(Unread())).None?
      ensures r.Some? ==> StreamModel.Read(lt, t, into, old(Unread())) == Some((r.value, Unread()))
      decreases t, 1
    {
      var n := TakeSize();
      if n.None? {
        return None;
      }
      var entries := if into.Map? then into.entries else [];
      var i := 0;
      while i < n.value
        invariant Valid() && 0 <= i <= n.value
        invariant ReadEntries(lt, t, entries, n.value - i, Unread()) == StreamModel.Read(lt, t, into, old(Unread()))
      {
        var e := ReadEntry(lt, t);
        if e.None? {
          return None;
        }
        entries := Insert(lt, entries, e.value);
        i := i + 1;
      }
      return Some(Map(entries));
    }
  }
}
