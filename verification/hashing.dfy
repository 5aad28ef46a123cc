/**
  The content hash that names a cache slot. `createBundle` streams the
  bytecode of every class, in iteration order, followed by the body of every
  resource, through SHA-256 and names the slot by the digest's lowercase
  hexadecimal form. The digest itself is a parameter (`Sha256`); reading
  class files and opening URLs are replaced by the bytes they would yield.
*/
module ContentHash {
  import opened FileStore

  /** A class to bundle, with the bytes of its `.class` resource. */
  datatype JavaClass = JavaClass(name: string, bytecode: seq<byte>)

  /** An extra resource, with the bytes its URL yields. */
  datatype Resource = Resource(uri: string, body: seq<byte>)

  /** A SHA-256 digest (FIPS 180-4): 32 bytes. */
  type Digest = d: seq<byte> | |d| == 32 witness seq(32, _ => 0)

  /** The one input supplier per class, then one per resource, in that order. */
  function Suppliers(classes: seq<JavaClass>, resources: seq<Resource>): (r: seq<seq<byte>>)
    ensures |r| == |classes| + |resources|
    ensures forall i :: 0 <= i < |classes| ==> r[i] == classes[i].bytecode
    ensures forall i :: 0 <= i < |resources| ==> r[|classes| + i] == resources[i].body
  {
    seq(|classes|, i requires 0 <= i < |classes| => classes[i].bytecode)
      + seq(|resources|, i requires 0 <= i < |resources| => resources[i].body)
  }

  /** `ByteStreams.join`: the streams read one after the other. */
  function Join(streams: seq<seq<byte>>): seq<byte> {
    if streams == [] then [] else streams[0] + Join(streams[1..])
  }

  /** The byte sequence that is hashed. */
  function HashInput(classes: seq<JavaClass>, resources: seq<Resource>): seq<byte> {
    Join(Suppliers(classes, resources))
  }

  /** The bytecode of the classes, back to back. */
  function ClassBytes(classes: seq<JavaClass>): seq<byte> {
    if classes == [] then [] else classes[0].bytecode + ClassBytes(classes[1..])
  }

  /** The bodies of the resources, back to back. */
  function ResourceBytes(resources: seq<Resource>): seq<byte> {
    if resources == [] then [] else resources[0].body + ResourceBytes(resources[1..])
  }

  lemma {:induction false} JoinAppend(a: seq<seq<byte>>, b: seq<seq<byte>>)
    ensures Join(a + b) == Join(a) + Join(b)
  {
    if a == [] {
      assert a + b == b;
    } else {
      assert (a + b)[1..] == a[1..] + b;
      JoinAppend(a[1..], b);
    }
  }

  lemma {:induction false} JoinClasses(classes: seq<JavaClass>)
    ensures Join(Suppliers(classes, [])) == ClassBytes(classes)
  {
    if classes != [] {
      assert Suppliers(classes, [])[1..] == Suppliers(classes[1..], []);
      JoinClasses(classes[1..]);
    }
  }

  lemma {:induction false} JoinResources(resources: seq<Resource>)
    ensures Join(Suppliers([], resources)) == ResourceBytes(resources)
  {
    if resources != [] {
      assert Suppliers([], resources)[1..] == Suppliers([], resources[1..]);
      JoinResources(resources[1..]);
    }
  }

  /**
    The hashed bytes are every class's bytecode in iteration order followed
    by every resource's body in iteration order.
  */
  lemma HashInputIsClassesThenResources(classes: seq<JavaClass>, resources: seq<Resource>)
    ensures HashInput(classes, resources) == ClassBytes(classes) + ResourceBytes(resources)
  {
    assert Suppliers(classes, resources) == Suppliers(classes, []) + Suppliers([], resources);
    JoinAppend(Suppliers(classes, []), Suppliers([], resources));
    JoinClasses(classes);
    JoinResources(resources);
  }

  /** Splitting the class list splits the hashed bytes at the same place. */
  lemma {:induction false} ClassBytesAppend(a: seq<JavaClass>, b: seq<JavaClass>)
    ensures ClassBytes(a + b) == ClassBytes(a) + ClassBytes(b)
  {
    if a == [] {
      assert a + b == b;
    } else {
      assert (a + b)[1..] == a[1..] + b;
      ClassBytesAppend(a[1..], b);
    }
  }

  /**
    The hash is sensitive to presentation order: swapping two classes whose
    bytecodes have the same length but differ changes the hashed bytes,
    whatever resources follow. (Bytecodes of different lengths can commute:
    `[1]` and `[1, 1]` give `[1, 1, 1]` either way.)
  */
  lemma ReorderingChangesHashInput(a: JavaClass, b: JavaClass, resources: seq<Resource>)
    requires |a.bytecode| == |b.bytecode| && a.bytecode != b.bytecode
    ensures HashInput([a, b], resources) != HashInput([b, a], resources)
  {
    HashInputIsClassesThenResources([a, b], resources);
    HashInputIsClassesThenResources([b, a], resources);
    assert ClassBytes([a, b]) == a.bytecode + b.bytecode by {
      assert [a, b][1..] == [b] && [b][1..] == [];
      assert ClassBytes([b]) == b.bytecode + ClassBytes([]);
    }
    assert ClassBytes([b, a]) == b.bytecode + a.bytecode by {
      assert [b, a][1..] == [a] && [a][1..] == [];
      assert ClassBytes([a]) == a.bytecode + ClassBytes([]);
    }
    var ab := HashInput([a, b], resources);
    var ba := HashInput([b, a], resources);
    assert ab == a.bytecode + b.bytecode + ResourceBytes(resources);
    assert ba == b.bytecode + a.bytecode + ResourceBytes(resources);
    assert ab[..|a.bytecode|] == a.bytecode;
    assert ba[..|a.bytecode|] == b.bytecode;
  }

  /** A lowercase hexadecimal digit. */
  predicate IsHexDigit(c: char) {
    '0' <= c <= '9' || 'a' <= c <= 'f'
  }

  /** The lowercase hexadecimal digit of a nibble. */
  function HexDigit(n: int): (c: char)
    requires 0 <= n < 16
    ensures IsHexDigit(c)
  {
    if n < 10 then (48 + n) as char else (87 + n) as char
  }

  /** The two hexadecimal digits of a byte, high nibble first. */
  function HexByte(b: byte): (r: string)
    ensures |r| == 2 && IsHexDigit(r[0]) && IsHexDigit(r[1])
  {
    [HexDigit(b / 16), HexDigit(b % 16)]
  }

  /** `HashCode.toString`: two lowercase hexadecimal digits per byte. */
  function Hex(bytes: seq<byte>): (r: string)
    ensures |r| == 2 * |bytes|
    ensures forall i :: 0 <= i < |r| ==> IsHexDigit(r[i])
  {
    if bytes == [] then [] else HexByte(bytes[0]) + Hex(bytes[1..])
  }

  lemma HexByteInjective(a: byte, b: byte)
    requires HexByte(a) == HexByte(b)
    ensures a == b
  {
    assert HexDigit(a / 16) == HexDigit(b / 16);
    assert HexDigit(a % 16) == HexDigit(b % 16);
  }

  /** Distinct digests give distinct slot names. */
  lemma {:induction false} HexInjective(a: seq<byte>, b: seq<byte>)
    requires Hex(a) == Hex(b)
    ensures a == b
  {
    if a != [] {
      assert |b| == |a|;
      assert Hex(a)[..2] == HexByte(a[0]);
      assert Hex(b)[..2] == HexByte(b[0]);
      HexByteInjective(a[0], b[0]);
      assert Hex(a)[2..] == Hex(a[1..]);
      assert Hex(b)[2..] == Hex(b[1..]);
      HexInjective(a[1..], b[1..]);
      assert a == [a[0]] + a[1..];
      assert b == [b[0]] + b[1..];
    }
  }

  /** The name of the slot for the given inputs under digest function `sha256`. */
  function SlotName(sha256: seq<byte> -> Digest, classes: seq<JavaClass>, resources: seq<Resource>): (name: string)
    ensures |name| == 64
    ensures name != "active"
  {
    Hex(sha256(HashInput(classes, resources)))
  }
}
