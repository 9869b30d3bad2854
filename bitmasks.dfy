/** readBitMasks (input-device.go): read a sysfs capability file, split it
    on white space, parse each token as a base-16 number, and reverse the
    list when the host is little-endian. The file's outcome and the host's
    byte order are inputs. */
module BitMasks {
  import opened Results
  import opened Text
  import opened Seqs

  /** The outcome of os.ReadFile on one sysfs file. */
  datatype FileRead = Data(text: string) | Missing | Unreadable

  /** The error os.ReadFile reports for a file it could not read. */
  function ReadError(file: FileRead): (e: Error)
    requires !file.Data?
  {
    if file.Missing? then FileNotFound else FileUnreadable
  }

  predicate AllHex(parts: seq<string>) {
    forall j :: 0 <= j < |parts| ==> IsHex(parts[j])
  }

  /** The index of the first token that is not a hexadecimal number. */
  function FirstBadToken(parts: seq<string>): (j: nat)
    requires !AllHex(parts)
    ensures j < |parts| && !IsHex(parts[j])
    ensures AllHex(parts[..j])
  {
    if !IsHex(parts[0]) then 0
    else
      assert !AllHex(parts[1..]) by {
        var k :| 0 <= k < |parts| && !IsHex(parts[k]);
        assert parts[1..][k - 1] == parts[k];
      }
      var j := FirstBadToken(parts[1..]);
      assert parts[..j + 1] == [parts[0]] + parts[1..][..j];
      1 + j
  }

  lemma FirstBadAt(parts: seq<string>, i: nat)
    requires i < |parts| && AllHex(parts[..i]) && !IsHex(parts[i])
    ensures !AllHex(parts) && FirstBadToken(parts) == i
  {
    var j := FirstBadToken(parts);
    forall m | 0 <= m < i ensures IsHex(parts[m]) {
      assert parts[..i][m] == parts[m];
    }
    forall m | 0 <= m < j ensures IsHex(parts[m]) {
      assert parts[..j][m] == parts[m];
    }
  }

  /** The tokens' values in token order, or the first bad token. */
  function ParseSegments(parts: seq<string>): (r: Result<seq<nat>>)
  {
    if AllHex(parts) then Ok(seq(|parts|, j requires 0 <= j < |parts| => HexValue(parts[j])))
    else Err(BadHexSegment(parts[FirstBadToken(parts)]))
  }

  /** What readBitMasks returns for a file outcome on a host of the given byte order. */
  function BitMasksOf(file: FileRead, littleEndian: bool): (r: Result<seq<nat>>) {
    if !file.Data? then Err(ReadError(file))
    else
      match ParseSegments(Fields(file.text))
      case Err(e) => Err(e)
      case Ok(segments) => Ok(if littleEndian then Reverse(segments) else segments)
  }

  /** readBitMasks, with its two append loops. */
  method ReadBitMasks(file: FileRead, littleEndian: bool) returns (r: Result<seq<nat>>)
    ensures r == BitMasksOf(file, littleEndian)
  {
    if !file.Data? {
      return Err(ReadError(file));
    }
    var parts := Fields(file.text);
    var segments: seq<nat> := [];
    for i := 0 to |parts|
      invariant AllHex(parts[..i])
      invariant |segments| == i
      invariant forall j :: 0 <= j < i ==> segments[j] == HexValue(parts[j])
    {
      var part := parts[i];
      var parsed := ParseHex(part);
      if parsed.None? {
        FirstBadAt(parts, i);
        return Err(BadHexSegment(part));
      }
      assert parts[..i + 1] == parts[..i] + [part];
      segments := segments + [parsed.value];
    }
    assert parts[..|parts|] == parts;
    assert segments == seq(|parts|, j requires 0 <= j < |parts| => HexValue(parts[j]));
    if littleEndian {
      var reversedSegments: seq<nat> := [];
      for i := |segments| downto 0
        invariant |reversedSegments| == |segments| - i
        invariant forall j :: 0 <= j < |reversedSegments| ==> reversedSegments[j] == segments[|segments| - 1 - j]
      {
        reversedSegments := reversedSegments + [segments[i]];
      }
      assert reversedSegments == Reverse(segments);
      segments := reversedSegments;
    }
    return Ok(segments);
  }

  /** One segment per token, each the token's base-16 value, listed in
      reverse token order on a little-endian host and in token order
      otherwise; a token that is not hexadecimal fails the whole read, and
      the error names the first such token. */
  lemma BitMasksSegments(text: string, littleEndian: bool)
    ensures var parts := Fields(text); var r := BitMasksOf(Data(text), littleEndian);
      (r.Ok? <==> AllHex(parts)) &&
      (r.Ok? ==>
         |r.value| == |parts| &&
         forall i :: 0 <= i < |parts| ==>
           r.value[i] == HexValue(parts[if littleEndian then |parts| - 1 - i else i])) &&
      (r.Err? ==>
         exists j ::
           0 <= j < |parts| && !IsHex(parts[j]) && AllHex(parts[..j]) && r.error == BadHexSegment(parts[j]))
  {
  }

  /** A hexadecimal digit is not white space, so %lx output is a single field. */
  lemma HexWordIsField(n: nat)
    ensures |ToHex(n)| > 0 && NoSpace(ToHex(n))
  {
  }

  /** The words a kernel writes for the given values, most significant first,
      each in lower-case hexadecimal. */
  function HexWords(values: seq<nat>): (ws: seq<string>)
    ensures |ws| == |values|
  {
    seq(|values|, i requires 0 <= i < |values| => ToHex(values[i]))
  }

  /** Reading a capability file as the kernel writes it (hexadecimal words
      separated by single spaces, the last one followed by a newline) gives
      the words' values: reversed, least significant first, on a
      little-endian host; as written on a big-endian one. */
  lemma ReadWrittenWords(values: seq<nat>, littleEndian: bool)
    ensures BitMasksOf(Data(JoinWords(HexWords(values))), littleEndian)
         == Ok(if littleEndian then Reverse(values) else values)
  {
    var ws := HexWords(values);
    forall j | 0 <= j < |ws| ensures |ws[j]| > 0 && NoSpace(ws[j]) {
      HexWordIsField(values[j]);
    }
    FieldsJoinWords(ws);
    forall j | 0 <= j < |ws| ensures IsHex(ws[j]) && HexValue(ws[j]) == values[j] {
      ParseHexToHex(values[j]);
    }
    assert seq(|ws|, j requires 0 <= j < |ws| => HexValue(ws[j])) == values;
  }
}
