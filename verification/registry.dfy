/** The local registry of open lookup tables for one boost: a file of
    32-byte address records, each followed by a newline byte. `WriteFile`
    appends records, `ReadFile` splits the file at newline bytes and keeps
    every line that decodes to an address. File contents are a parameter;
    the path and the operating system calls are not modelled. */
module Registry {
  import opened Types
  import opened Seqs

  /** Bytes in one record: the address and its newline. */
  const RECORD_LEN: nat := 33

  /** The record written for one address. */
  function Record(key: Pubkey): seq<Byte>
  {
    key + [NEWLINE]
  }

  /** The bytes written for `keys`: one record per address, in order. */
  function Encode(keys: seq<Pubkey>): (r: seq<Byte>)
    ensures |r| == 33 * |keys|
  {
    if |keys| == 0 then [] else Record(keys[0]) + Encode(keys[1..])
  }

  /** The `i`-th record of the encoding sits at offset `33 * i`: the
      address's 32 bytes and then a newline. */
  lemma {:induction false} EncodeLayout(keys: seq<Pubkey>, i: nat)
    requires i < |keys|
    ensures Encode(keys)[33 * i .. 33 * i + 32] == keys[i]
    ensures Encode(keys)[33 * i + 32] == NEWLINE
  {
    var r := Encode(keys);
    var rest := Encode(keys[1..]);
    assert r == Record(keys[0]) + rest;
    if i > 0 {
      EncodeLayout(keys[1..], i - 1);
      assert r[33 * i .. 33 * i + 32] == rest[33 * (i - 1) .. 33 * (i - 1) + 32];
      assert r[33 * i + 32] == rest[33 * (i - 1) + 32];
    }
  }

  /** Writing twice appends the records of both calls, in call order. */
  lemma {:induction false} EncodeAppend(a: seq<Pubkey>, b: seq<Pubkey>)
    ensures Encode(a + b) == Encode(a) + Encode(b)
  {
    if |a| == 0 {
      assert a + b == b;
    } else {
      assert (a + b)[0] == a[0];
      assert (a + b)[1..] == a[1..] + b;
      EncodeAppend(a[1..], b);
    }
  }

  /** `write_file`: opens the file for appending (creating it when absent,
      given here as `None`) and appends one record per address. Earlier
      contents are kept as they were. */
  function WriteFile(existing: Option<seq<Byte>>, keys: seq<Pubkey>): (r: seq<Byte>)
    ensures existing.Some? ==> |r| == |existing.value| + 33 * |keys|
    ensures existing.Some? ==> r[..|existing.value|] == existing.value
    ensures existing.None? ==> |r| == 33 * |keys|
  {
    var base := if existing.Some? then existing.value else [];
    base + Encode(keys)
  }

  /** After a write, the `i`-th new address sits, followed by a newline,
      33 * i bytes past the end of the earlier contents. */
  lemma WriteFileLayout(existing: Option<seq<Byte>>, keys: seq<Pubkey>, i: nat)
    requires i < |keys|
    ensures var base := if existing.Some? then |existing.value| else 0;
      var r := WriteFile(existing, keys);
      r[base + 33 * i .. base + 33 * i + 32] == keys[i] && r[base + 33 * i + 32] == NEWLINE
  {
    var base := if existing.Some? then existing.value else [];
    EncodeLayout(keys, i);
    assert WriteFile(existing, keys)[|base|..] == Encode(keys);
  }

  /** `BufReader::read_until(b'\n')`: the bytes up to and including the first
      newline, or every byte when there is no newline. */
  function ReadUntil(bs: seq<Byte>): (line: seq<Byte>)
    ensures |line| <= |bs|
    ensures |bs| > 0 ==> |line| > 0
  {
    if |bs| == 0 then []
    else if bs[0] == NEWLINE then [bs[0]]
    else [bs[0]] + ReadUntil(bs[1..])
  }

  /** Where a line read by `ReadUntil` stops: it has no newline before its
      last byte, it ends in a newline unless it takes the whole input, and
      it takes the whole input when the input has no newline. */
  lemma {:induction false} ReadUntilSpec(bs: seq<Byte>)
    ensures var line := ReadUntil(bs);
      && line == bs[..|line|]
      && (forall i :: 0 <= i < |line| - 1 ==> line[i] != NEWLINE)
      && (|line| < |bs| ==> line[|line| - 1] == NEWLINE)
      && (NEWLINE !in bs ==> line == bs)
  {
    if |bs| > 0 && bs[0] != NEWLINE {
      ReadUntilSpec(bs[1..]);
      var line := ReadUntil(bs);
      assert line == [bs[0]] + ReadUntil(bs[1..]);
      assert forall i :: 1 <= i < |line| ==> line[i] == ReadUntil(bs[1..])[i - 1];
      if NEWLINE !in bs {
        assert NEWLINE !in bs[1..];
        assert bs == [bs[0]] + bs[1..];
      }
    }
  }

  /** `Vec::pop` on a line: drops its last byte, whatever it is. */
  function Pop(line: seq<Byte>): seq<Byte>
  {
    if |line| == 0 then [] else line[..|line| - 1]
  }

  /** One line as read: the last byte is popped and the remainder must be
      exactly an address. */
  function DecodeLine(line: seq<Byte>): (r: Result<Pubkey>)
    ensures r.Ok? <==> |line| == RECORD_LEN
    ensures r.Ok? ==> r.value == line[..32]
    ensures r.Err? ==> r.error == InvalidPubkeyBytes
  {
    var body := Pop(line);
    if |body| == PUBKEY_LEN then Ok(body) else Err(InvalidPubkeyBytes)
  }

  /** The address a line contributes: one when it decodes, none otherwise. */
  function Found(line: seq<Byte>): seq<Pubkey>
  {
    if DecodeLine(line).Ok? then [DecodeLine(line).value] else []
  }

  /** The addresses `read_file` returns for the bytes `bs`: every line that
      decodes, in file order. A malformed line is skipped. */
  function ParseRecords(bs: seq<Byte>): (r: seq<Pubkey>)
    decreases |bs|
  {
    if |bs| == 0 then []
    else
      var line := ReadUntil(bs);
      Found(line) + ParseRecords(bs[|line|..])
  }

  /** `read_file`: a missing file is an error; otherwise the loop reads line
      after line until `read_until` returns no bytes, keeping the lines that
      decode and skipping the others. */
  method ReadFile(file: Option<seq<Byte>>) returns (r: Result<seq<Pubkey>>)
    ensures file.None? <==> r.Err?
    ensures r.Err? ==> r.error == RegistryFileMissing
    ensures r.Ok? ==> r.value == ParseRecords(file.value)
  {
    if file.None? {
      return Err(RegistryFileMissing);
    }
    var unread := file.value;
    var luts: seq<Pubkey> := [];
    while |unread| > 0
      invariant luts + ParseRecords(unread) == ParseRecords(file.value)
      decreases |unread|
    {
      var line := ReadUntil(unread);
      var decoded := DecodeLine(line);
      var rest := unread[|line|..];
      ParseStep(unread, line, rest);
      if decoded.Ok? {
        assert Found(line) == [decoded.value];
        AppendAssoc(luts, [decoded.value], ParseRecords(rest));
        luts := luts + [decoded.value];
      } else {
        assert Found(line) == [];
        assert [] + ParseRecords(rest) == ParseRecords(rest);
      }
      assert luts + ParseRecords(rest) == ParseRecords(file.value);
      unread := rest;
    }
    return Ok(luts);
  }

  /** One step of the reader: the first line's address, if it decodes,
      then the addresses of the rest of the file. */
  lemma ParseStep(bs: seq<Byte>, line: seq<Byte>, rest: seq<Byte>)
    requires |bs| > 0 && line == ReadUntil(bs) && rest == bs[|line|..]
    ensures 0 < |line| <= |bs|
    ensures ParseRecords(bs) == Found(line) + ParseRecords(rest)
  {
  }

  /** A line that ends in its first newline is read whole. */
  lemma {:induction false} ReadUntilLine(line: seq<Byte>, rest: seq<Byte>)
    requires NEWLINE !in line
    ensures ReadUntil(line + [NEWLINE] + rest) == line + [NEWLINE]
  {
    if |line| > 0 {
      assert (line + [NEWLINE] + rest)[1..] == line[1..] + [NEWLINE] + rest;
      ReadUntilLine(line[1..], rest);
      assert line == [line[0]] + line[1..];
    }
  }

  /** Reading one newline-terminated line: it yields an address exactly when
      it holds 32 bytes, and reading continues with the next line. */
  lemma ParseLine(line: seq<Byte>, rest: seq<Byte>)
    requires NEWLINE !in line
    ensures ParseRecords(line + [NEWLINE] + rest) ==
      (if |line| == PUBKEY_LEN then [line] else []) + ParseRecords(rest)
  {
    var bs := line + [NEWLINE] + rest;
    ReadUntilLine(line, rest);
    assert bs[|line| + 1..] == rest;
    assert (line + [NEWLINE])[..|line|] == line;
  }

  /** A file with fewer bytes than one record yields nothing. */
  lemma ParseShort(bs: seq<Byte>)
    requires |bs| < RECORD_LEN
    ensures ParseRecords(bs) == []
  {
  }

  /** If the first line of `a` is terminated, `a + b` starts with the same line. */
  lemma {:induction false} ReadUntilAppend(a: seq<Byte>, b: seq<Byte>)
    requires NEWLINE in a
    ensures ReadUntil(a + b) == ReadUntil(a)
  {
    assert (a + b)[0] == a[0];
    if a[0] != NEWLINE {
      assert (a + b)[1..] == a[1..] + b;
      assert NEWLINE in a[1..] by {
        var j :| 0 <= j < |a| && a[j] == NEWLINE;
        assert a[1..][j - 1] == NEWLINE;
      }
      ReadUntilAppend(a[1..], b);
    }
  }

  lemma DropAppend(a: seq<Byte>, b: seq<Byte>, k: nat)
    requires k <= |a|
    ensures (a + b)[k..] == a[k..] + b
  {
  }

  /** Reading a file made of a terminated part `a` followed by `b` returns the
      addresses of `a` and then those of `b`: a malformed line in `a` never
      hides a well-formed one after it. */
  lemma {:induction false} ParseConcat(a: seq<Byte>, b: seq<Byte>)
    requires |a| == 0 || a[|a| - 1] == NEWLINE
    ensures ParseRecords(a + b) == ParseRecords(a) + ParseRecords(b)
    decreases |a|
  {
    if |a| == 0 {
      assert a + b == b;
    } else {
      var line := ReadUntil(a);
      var tail := a[|line|..];
      assert |tail| == 0 || tail[|tail| - 1] == NEWLINE by {
        if |tail| > 0 {
          assert tail[|tail| - 1] == a[|a| - 1];
        }
      }
      ParseConcat(tail, b);
      ParseConcatStep(a, b, line, tail);
    }
  }

  /** The inductive step of `ParseConcat`: the first line of `a` is also the
      first line of `a + b`. */
  lemma {:induction false} ParseConcatStep(a: seq<Byte>, b: seq<Byte>, line: seq<Byte>, tail: seq<Byte>)
    requires |a| > 0 && a[|a| - 1] == NEWLINE
    requires line == ReadUntil(a) && tail == a[|line|..]
    requires ParseRecords(tail + b) == ParseRecords(tail) + ParseRecords(b)
    ensures ParseRecords(a + b) == ParseRecords(a) + ParseRecords(b)
  {
    DropAppend(a, b, |line|);
    assert ReadUntil(a + b) == line by {
      ReadUntilAppend(a, b);
    }
    calc {
      ParseRecords(a + b);
      == { ParseStep(a + b, line, tail + b); }
      Found(line) + ParseRecords(tail + b);
      ==
      Found(line) + (ParseRecords(tail) + ParseRecords(b));
      == { AppendAssoc(Found(line), ParseRecords(tail), ParseRecords(b)); }
      (Found(line) + ParseRecords(tail)) + ParseRecords(b);
      == { ParseStep(a, line, tail); }
      ParseRecords(a) + ParseRecords(b);
    }
  }

  /** A malformed newline-terminated line is skipped and every line after it
      is still read. */
  lemma {:induction false} SkipMalformed(prefix: seq<Byte>, line: seq<Byte>, rest: seq<Byte>)
    requires |prefix| == 0 || prefix[|prefix| - 1] == NEWLINE
    requires NEWLINE !in line && |line| != PUBKEY_LEN
    ensures ParseRecords(prefix + line + [NEWLINE] + rest) == ParseRecords(prefix) + ParseRecords(rest)
  {
    var tail := line + [NEWLINE] + rest;
    assert prefix + line + [NEWLINE] + rest == prefix + tail;
    ParseConcat(prefix, tail);
    ParseLine(line, rest);
    assert ParseRecords(tail) == ParseRecords(rest);
  }

  /** A last line without a newline still loses its last byte: it yields an
      address only when it is 33 bytes long, so an unterminated 32-byte
      record is dropped. */
  lemma {:induction false} UnterminatedLine(line: seq<Byte>)
    requires |line| > 0 && NEWLINE !in line
    ensures ParseRecords(line) == if |line| == RECORD_LEN then [line[..32]] else []
  {
    ReadUntilSpec(line);
    assert ReadUntil(line) == line;
    assert line[|line|..] == [];
  }

  /** An address written without its newline is not read back, whatever
      bytes it holds: every line it splits into is shorter than a record. */
  lemma {:induction false} UnterminatedRecordDropped(prefix: seq<Byte>, key: Pubkey)
    requires |prefix| == 0 || prefix[|prefix| - 1] == NEWLINE
    ensures ParseRecords(prefix + key) == ParseRecords(prefix)
  {
    ParseConcat(prefix, key);
    ParseShort(key);
  }

  /** No byte of the address is a newline. */
  predicate NewlineFree(key: Pubkey)
  {
    NEWLINE !in key
  }

  /** Reading what was written returns the same addresses in the same order,
      provided no address contains a newline byte. */
  lemma {:induction false} RoundTrip(keys: seq<Pubkey>)
    requires forall i :: 0 <= i < |keys| ==> NewlineFree(keys[i])
    ensures ParseRecords(Encode(keys)) == keys
  {
    if |keys| > 0 {
      RoundTrip(keys[1..]);
      assert Encode(keys) == keys[0] + [NEWLINE] + Encode(keys[1..]);
      ParseLine(keys[0], Encode(keys[1..]));
    }
  }

  /** Appending to a registry whose last record is terminated: reading
      afterwards returns the earlier addresses followed by the new ones. */
  lemma {:induction false} AppendThenRead(existing: seq<Byte>, keys: seq<Pubkey>)
    requires |existing| == 0 || existing[|existing| - 1] == NEWLINE
    requires forall i :: 0 <= i < |keys| ==> NewlineFree(keys[i])
    ensures ParseRecords(WriteFile(Some(existing), keys)) == ParseRecords(existing) + keys
  {
    assert WriteFile(Some(existing), keys) == existing + Encode(keys);
    ParseConcat(existing, Encode(keys));
    RoundTrip(keys);
  }

  /** The number of newline bytes in `s`. */
  function Newlines(s: seq<Byte>): nat
  {
    if |s| == 0 then 0 else (if s[0] == NEWLINE then 1 else 0) + Newlines(s[1..])
  }

  lemma {:induction false} NewlinesAppend(a: seq<Byte>, b: seq<Byte>)
    ensures Newlines(a + b) == Newlines(a) + Newlines(b)
  {
    if |a| > 0 {
      assert (a + b)[1..] == a[1..] + b;
      NewlinesAppend(a[1..], b);
    } else {
      assert a + b == b;
    }
  }

  /** `Newlines` counts at least the newline at any one position. */
  lemma {:induction false} NewlinesAt(s: seq<Byte>, j: nat)
    requires j < |s| && s[j] == NEWLINE
    ensures Newlines(s) >= 1
  {
    if j > 0 {
      NewlinesAt(s[1..], j - 1);
    }
  }

  /** Bytes with no newline before the last hold at most one newline. */
  lemma {:induction false} NewlinesOnlyLast(line: seq<Byte>)
    requires forall i :: 0 <= i < |line| - 1 ==> line[i] != NEWLINE
    ensures Newlines(line) <= 1
  {
    if |line| > 1 {
      assert line[0] != NEWLINE;
      assert forall i :: 0 <= i < |line[1..]| - 1 ==> line[1..][i] == line[i + 1];
      NewlinesOnlyLast(line[1..]);
    } else if |line| == 1 {
      assert line[1..] == [];
    }
  }

  /** A line as read holds at most one newline, its last byte. */
  lemma {:induction false} LineNewlines(bs: seq<Byte>)
    ensures Newlines(ReadUntil(bs)) <= 1
  {
    ReadUntilSpec(bs);
    NewlinesOnlyLast(ReadUntil(bs));
  }

  /** Each line read contributes its newline (if any) and, when it decodes,
      32 address bytes: together they never exceed the file's size. */
  lemma {:induction false} ParseRecordsBound(bs: seq<Byte>)
    ensures 32 * |ParseRecords(bs)| + Newlines(bs) <= |bs|
    decreases |bs|
  {
    if |bs| > 0 {
      var line := ReadUntil(bs);
      var rest := bs[|line|..];
      ParseRecordsBound(rest);
      ParseStep(bs, line, rest);
      assert 32 * |Found(line)| + Newlines(line) <= |line| by {
        LineNewlines(bs);
      }
      assert Newlines(bs) == Newlines(line) + Newlines(rest) by {
        ReadUntilSpec(bs);
        TakeDrop(bs, |line|);
        NewlinesAppend(line, rest);
      }
      assert |ParseRecords(bs)| == |Found(line)| + |ParseRecords(rest)|;
    }
  }

  /** The registry bytes hold one newline per record plus one for every
      newline byte inside an address. */
  lemma {:induction false} EncodeNewlines(keys: seq<Pubkey>)
    ensures Newlines(Encode(keys)) >= |keys|
    ensures (exists i :: 0 <= i < |keys| && !NewlineFree(keys[i])) ==>
      Newlines(Encode(keys)) > |keys|
  {
    if |keys| > 0 {
      EncodeNewlines(keys[1..]);
      assert Encode(keys) == keys[0] + ([NEWLINE] + Encode(keys[1..]));
      NewlinesAppend(keys[0], [NEWLINE] + Encode(keys[1..]));
      assert Newlines([NEWLINE] + Encode(keys[1..])) == 1 + Newlines(Encode(keys[1..])) by {
        assert ([NEWLINE] + Encode(keys[1..]))[1..] == Encode(keys[1..]);
      }
      if !NewlineFree(keys[0]) {
        var j :| 0 <= j < |keys[0]| && keys[0][j] == NEWLINE;
        NewlinesAt(keys[0], j);
      }
      if exists i :: 0 <= i < |keys| && !NewlineFree(keys[i]) {
        var i :| 0 <= i < |keys| && !NewlineFree(keys[i]);
        if i > 0 {
          assert 0 <= i - 1 < |keys[1..]| && !NewlineFree(keys[1..][i - 1]);
        }
      }
    }
  }

  /** Reading what was written returns the same list exactly when no address
      contains a newline byte. */
  lemma {:induction false} RoundTripIff(keys: seq<Pubkey>)
    ensures ParseRecords(Encode(keys)) == keys <==> forall i :: 0 <= i < |keys| ==> NewlineFree(keys[i])
  {
    if forall i :: 0 <= i < |keys| ==> NewlineFree(keys[i]) {
      RoundTrip(keys);
    } else {
      ParseRecordsBound(Encode(keys));
      EncodeNewlines(keys);
    }
  }

  /** For a single address the round trip holds exactly when the address
      contains no newline byte: a newline inside it splits the record into
      two short lines, both of which are skipped. */
  lemma SingleRoundTripIff(key: Pubkey)
    ensures ParseRecords(Encode([key])) == [key] <==> NewlineFree(key)
    ensures !NewlineFree(key) ==> ParseRecords(Encode([key])) == []
  {
    assert Encode([key]) == key + [NEWLINE];
    if NewlineFree(key) {
      RoundTrip([key]);
    } else {
      var bs := key + [NEWLINE];
      var line := ReadUntil(bs);
      ReadUntilSpec(bs);
      assert |line| <= PUBKEY_LEN by {
        var j :| 0 <= j < |key| && key[j] == NEWLINE;
        assert bs[j] == NEWLINE;
      }
      ParseShort(bs[|line|..]);
    }
  }

  /** A concrete lookup-table address whose first byte is 0x0A: written to
      the registry and read back, it is lost. */
  lemma NewlineAddressIsLost()
    ensures var key: Pubkey := [NEWLINE] + Zeros(31);
      ParseRecords(WriteFile(None, [key])) == []
  {
    var key: Pubkey := [NEWLINE] + Zeros(31);
    assert key[0] == NEWLINE;
    SingleRoundTripIff(key);
    assert WriteFile(None, [key]) == Encode([key]);
  }

  /** A reader for the same file format that takes records by their fixed
      width instead of splitting at newline bytes: each 33-byte frame whose
      last byte is a newline yields its first 32 bytes; a frame without one
      is skipped, and a trailing partial frame is ignored. */
  function ParseFixedWidth(bs: seq<Byte>): (r: seq<Pubkey>)
    ensures 33 * |r| <= |bs|
    decreases |bs|
  {
    if |bs| < RECORD_LEN then []
    else
      var rest := ParseFixedWidth(bs[RECORD_LEN..]);
      if bs[32] == NEWLINE then [bs[..32]] + rest else rest
  }

  /** The fixed-width reader returns every written address, whatever bytes
      it holds. */
  lemma {:induction false} FixedWidthRoundTrip(keys: seq<Pubkey>)
    ensures ParseFixedWidth(Encode(keys)) == keys
  {
    if |keys| > 0 {
      var bs := Encode(keys);
      assert bs == Record(keys[0]) + Encode(keys[1..]);
      assert bs[RECORD_LEN..] == Encode(keys[1..]);
      assert bs[..32] == keys[0];
      FixedWidthRoundTrip(keys[1..]);
    }
  }

  /** What the fixed-width reader gives up: after a short malformed line it
      stays out of step with the records, where the newline-splitting reader
      skips that line and reads the record after it. */
  lemma FixedWidthLosesResync(key: Pubkey)
    requires NewlineFree(key)
    ensures var bs := [1, 2, NEWLINE] + Encode([key]);
      && ParseRecords(bs) == [key]
      && ParseFixedWidth(bs) == []
  {
    var bs := [1, 2, NEWLINE] + Encode([key]);
    var junk: seq<Byte> := [1, 2];
    assert NEWLINE !in junk;
    SkipMalformed([], junk, Encode([key]));
    assert [] + junk + [NEWLINE] + Encode([key]) == bs;
    RoundTrip([key]);
    assert Encode([key]) == key + [NEWLINE] + Encode([]);
    assert bs[32] == key[29];
    assert ParseFixedWidth(bs) == ParseFixedWidth(bs[RECORD_LEN..]);
    assert |bs[RECORD_LEN..]| < RECORD_LEN;
  }

  /** With the fixed-width reader, appending to a registry written by
      `WriteFile` reads back the earlier addresses followed by the new ones. */
  lemma FixedWidthAppendThenRead(earlier: seq<Pubkey>, keys: seq<Pubkey>)
    ensures ParseFixedWidth(WriteFile(Some(Encode(earlier)), keys)) == earlier + keys
  {
    EncodeAppend(earlier, keys);
    assert WriteFile(Some(Encode(earlier)), keys) == Encode(earlier + keys);
    FixedWidthRoundTrip(earlier + keys);
  }
}
