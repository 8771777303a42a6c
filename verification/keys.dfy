/** Catalog keys and their comparator (extractor/vdfs-tools/lib/cattree.c).

The B+tree uses only the three order laws proved at the end of this module:
the comparator is zero exactly on equal keys, changes sign when its arguments
are exchanged, and is transitive. */
module Keys {
  import opened Octets

  /** The compared part of a catalog key: parent directory, name bytes and object. */
  datatype Key = Key(parent: nat, name: seq<Byte>, obj: nat)

  /** memcmp over the first `len` bytes: the sign of the first difference. */
  function MemCmp(a: seq<Byte>, b: seq<Byte>, len: nat): int
    requires len <= |a| && len <= |b|
    decreases len
  {
    if len == 0 then 0
    else if a[0] != b[0] then a[0] - b[0]
    else MemCmp(a[1..], b[1..], len - 1)
  }

  function Cmp(k1: Key, k2: Key): int {
    if k1.parent < k2.parent then -1
    else if k1.parent > k2.parent then 1
    else
      var len := if |k1.name| < |k2.name| then |k1.name| else |k2.name|;
      var ret := if len != 0 then MemCmp(k1.name, k2.name, len) else 0;
      if ret != 0 then ret
      else if |k1.name| != |k2.name| then |k1.name| - |k2.name|
      else if k1.obj < k2.obj then -1
      else if k1.obj > k2.obj then 1
      else 0
  }

  predicate Lt(a: Key, b: Key) {
    Cmp(a, b) < 0
  }

  predicate Le(a: Key, b: Key) {
    Cmp(a, b) <= 0
  }

  lemma {:induction false} MemCmpZero(a: seq<Byte>, b: seq<Byte>, len: nat)
    requires len <= |a| && len <= |b|
    ensures MemCmp(a, b, len) == 0 <==> a[..len] == b[..len]
    decreases len
  {
    if len != 0 {
      MemCmpZero(a[1..], b[1..], len - 1);
      assert a[..len] == [a[0]] + a[1..][..len - 1];
      assert b[..len] == [b[0]] + b[1..][..len - 1];
      if a[0] != b[0] {
        assert a[..len][0] != b[..len][0];
      } else if a[..len] == b[..len] {
        assert a[1..][..len - 1] == a[..len][1..] == b[..len][1..] == b[1..][..len - 1];
      }
    }
  }

  lemma {:induction false} MemCmpFlip(a: seq<Byte>, b: seq<Byte>, len: nat)
    requires len <= |a| && len <= |b|
    ensures MemCmp(a, b, len) == -MemCmp(b, a, len)
    decreases len
  {
    if len != 0 && a[0] == b[0] {
      MemCmpFlip(a[1..], b[1..], len - 1);
    }
  }

  /** Names compare as the lexicographic order in which a proper prefix comes first. */
  function NameCmp(a: seq<Byte>, b: seq<Byte>): int {
    if a == [] && b == [] then 0
    else if a == [] then -1
    else if b == [] then 1
    else if a[0] != b[0] then a[0] - b[0]
    else NameCmp(a[1..], b[1..])
  }

  function Sign(x: int): int {
    if x < 0 then -1 else if x > 0 then 1 else 0
  }

  lemma {:induction false} MemCmpIsNameCmp(a: seq<Byte>, b: seq<Byte>, len: nat)
    requires len == if |a| < |b| then |a| else |b|
    ensures Sign(if MemCmp(a, b, len) != 0 then MemCmp(a, b, len) else |a| - |b|) == Sign(NameCmp(a, b))
    decreases len
  {
    if len != 0 && a[0] == b[0] {
      MemCmpIsNameCmp(a[1..], b[1..], len - 1);
    }
  }

  lemma {:induction false} NameCmpTransitive(a: seq<Byte>, b: seq<Byte>, c: seq<Byte>)
    requires NameCmp(a, b) <= 0 && NameCmp(b, c) <= 0
    ensures NameCmp(a, c) <= 0
    ensures NameCmp(a, c) == 0 ==> NameCmp(a, b) == 0 && NameCmp(b, c) == 0
    decreases |a|
  {
    if a != [] && b != [] && c != [] && a[0] == b[0] && b[0] == c[0] {
      NameCmpTransitive(a[1..], b[1..], c[1..]);
    }
  }

  /** The comparator is the lexicographic order on (parent, name, obj). */
  lemma CmpIsLexicographic(k1: Key, k2: Key)
    ensures Sign(Cmp(k1, k2)) ==
            if k1.parent != k2.parent then Sign(k1.parent - k2.parent)
            else if NameCmp(k1.name, k2.name) != 0 then Sign(NameCmp(k1.name, k2.name))
            else Sign(k1.obj - k2.obj)
  {
    var len := if |k1.name| < |k2.name| then |k1.name| else |k2.name|;
    MemCmpIsNameCmp(k1.name, k2.name, len);
  }

  lemma CmpZero(a: Key, b: Key)
    ensures Cmp(a, b) == 0 <==> a == b
  {
    var len := if |a.name| < |b.name| then |a.name| else |b.name|;
    MemCmpZero(a.name, b.name, len);
    if Cmp(a, b) == 0 || a == b {
      assert a.name[..len] == a.name && b.name[..len] == b.name;
    }
  }

  lemma CmpFlip(a: Key, b: Key)
    ensures Cmp(a, b) == -Cmp(b, a)
  {
    var len := if |a.name| < |b.name| then |a.name| else |b.name|;
    MemCmpFlip(a.name, b.name, len);
  }

  lemma LeTransitive(a: Key, b: Key, c: Key)
    requires Le(a, b) && Le(b, c)
    ensures Le(a, c)
    ensures Lt(a, b) || Lt(b, c) ==> Lt(a, c)
  {
    CmpIsLexicographic(a, b);
    CmpIsLexicographic(b, c);
    CmpIsLexicographic(a, c);
    if a.parent == b.parent == c.parent && NameCmp(a.name, b.name) <= 0 && NameCmp(b.name, c.name) <= 0 {
      NameCmpTransitive(a.name, b.name, c.name);
    }
  }
}
