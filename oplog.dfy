/**
  * The operation log's text format and the duplicate test on it
  * (autogpt/commands/file_operations.py:20-49): an entry is the line
  * `"<operation>: <filename>\n"` and "already done" means the entry occurs
  * somewhere in the log text as a substring.
  */
module OperationLog {

  /** `f"{operation}: {filename}\n"`: one line, ending in a newline. */
  function Entry(operation: string, filename: string): (e: string)
    ensures |e| > 0 && e[|e| - 1] == '\n'
  {
    operation + ": " + filename + "\n"
  }

  /** Python's `needle in hay` for strings: some start position in `hay` begins a copy of `needle`. */
  predicate Occurs(needle: string, hay: string)
    decreases |hay|
  {
    needle <= hay || (hay != [] && Occurs(needle, hay[1..]))
  }

  /** `needle` is found in `hay` starting at position `i`. */
  predicate FoundAt(needle: string, hay: string, i: int)
  {
    0 <= i && i + |needle| <= |hay| && hay[i..i + |needle|] == needle
  }

  /** `Occurs` is the usual substring relation. */
  lemma {:induction false} OccursIff(needle: string, hay: string)
    ensures Occurs(needle, hay) <==> exists i :: FoundAt(needle, hay, i)
    decreases |hay|
  {
    if needle <= hay {
      assert FoundAt(needle, hay, 0);
    } else if hay != [] {
      OccursIff(needle, hay[1..]);
      if exists i :: FoundAt(needle, hay, i) {
        var i :| FoundAt(needle, hay, i);
        assert i != 0;
        FoundShiftsDown(needle, hay, i);
      }
      if Occurs(needle, hay[1..]) {
        var j :| FoundAt(needle, hay[1..], j);
        FoundShiftsUp(needle, hay, j);
      }
    }
  }

  /** A copy found past the first character of `hay` is found in `hay[1..]`, one place earlier. */
  lemma FoundShiftsDown(needle: string, hay: string, i: int)
    requires FoundAt(needle, hay, i) && i > 0
    ensures FoundAt(needle, hay[1..], i - 1)
  {
    assert hay[1..][i - 1..i - 1 + |needle|] == hay[i..i + |needle|];
  }

  /** A copy found in `hay[1..]` is found in `hay`, one place later. */
  lemma FoundShiftsUp(needle: string, hay: string, j: int)
    requires hay != [] && FoundAt(needle, hay[1..], j)
    ensures FoundAt(needle, hay, j + 1)
  {
    assert hay[j + 1..j + 1 + |needle|] == hay[1..][j..j + |needle|];
  }

  /** Text appended after a log keeps everything that was found in it before. */
  lemma OccursExtend(needle: string, hay: string, more: string)
    requires Occurs(needle, hay)
    ensures Occurs(needle, hay + more)
  {
    OccursIff(needle, hay);
    var i :| FoundAt(needle, hay, i);
    assert (hay + more)[i..i + |needle|] == hay[i..i + |needle|];
    assert FoundAt(needle, hay + more, i);
    OccursIff(needle, hay + more);
  }

  /** An entry just appended to a log is found in it. */
  lemma OccursAtEnd(needle: string, hay: string)
    ensures Occurs(needle, hay + needle)
  {
    var h := hay + needle;
    assert h[|hay|..|hay| + |needle|] == needle;
    assert FoundAt(needle, h, |hay|);
    OccursIff(needle, h);
  }

  /** A text without a line break (an error message, for one) holds no entry. */
  lemma NoEntryWithoutNewline(operation: string, filename: string, text: string)
    requires '\n' !in text
    ensures !Occurs(Entry(operation, filename), text)
  {
    var e := Entry(operation, filename);
    OccursIff(e, text);
    forall i | 0 <= i && i + |e| <= |text|
      ensures !FoundAt(e, text, i)
    {
      assert text[i..i + |e|][|e| - 1] == text[i + |e| - 1];
    }
  }

  /** Every character of a text found in `hay` is a character of `hay`. */
  lemma OccursChars(needle: string, hay: string, c: char)
    requires Occurs(needle, hay) && c in needle
    ensures c in hay
  {
    OccursIff(needle, hay);
    var i :| FoundAt(needle, hay, i);
    var j :| 0 <= j < |needle| && needle[j] == c;
    assert hay[i..i + |needle|][j] == hay[i + j];
  }

  /** A text with no line break, or with no carriage return, holds no entry for a name with a carriage return. */
  lemma NoEntryWithCarriageReturn(operation: string, filename: string, text: string)
    requires '\r' in filename
    requires '\n' !in text || '\r' !in text
    ensures !Occurs(Entry(operation, filename), text)
  {
    var e := Entry(operation, filename);
    if '\n' !in text {
      NoEntryWithoutNewline(operation, filename, text);
    } else if Occurs(e, text) {
      var j :| 0 <= j < |filename| && filename[j] == '\r';
      assert e[|operation| + 2 + j] == '\r';
      OccursChars(e, text, '\r');
    }
  }
}
