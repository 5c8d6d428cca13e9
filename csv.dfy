/**
 * The small comma-separated-values helpers used when saving and loading:
 * a comma in a text field is written as ";;" and read back as ",", and a
 * line is split on commas with surplus columns folded into the last one.
 */
module Csv {

  /** `s.replace(",", ";;")`: every comma becomes ";;", everything else is kept. */
  function EscapeCsv(s: string): (r: string)
    ensures ',' !in r
    ensures ',' !in s ==> r == s
  {
    if s == [] then []
    else (if s[0] == ',' then ";;" else [s[0]]) + EscapeCsv(s[1..])
  }

  /** The number of occurrences of `c` in `s`. */
  function CountOf(s: string, c: char): nat {
    if s == [] then 0 else (if s[0] == c then 1 else 0) + CountOf(s[1..], c)
  }

  /** Escaping grows a field by one character per comma and keeps every non-comma character. */
  lemma {:induction false} EscapeLength(s: string)
    ensures |EscapeCsv(s)| == |s| + CountOf(s, ',')
    ensures CountOf(EscapeCsv(s), ';') == CountOf(s, ';') + 2 * CountOf(s, ',')
  {
    if s != [] {
      EscapeLength(s[1..]);
      var head := if s[0] == ',' then ";;" else [s[0]];
      CountOfAppend(head, EscapeCsv(s[1..]), ';');
      assert EscapeCsv(s) == head + EscapeCsv(s[1..]);
      if s[0] == ',' {
        assert head[1..] == ";" && head[1..][1..] == [];
      } else {
        assert head[1..] == [];
      }
    }
  }

  lemma {:induction false} CountOfAppend(a: string, b: string, c: char)
    ensures CountOf(a + b, c) == CountOf(a, c) + CountOf(b, c)
  {
    if a != [] {
      CountOfAppend(a[1..], b, c);
      assert (a + b)[1..] == a[1..] + b;
    } else {
      assert a + b == b;
    }
  }

  /**
   * `s.replace(";;", ",")`: scanning left to right, each non-overlapping
   * ";;" becomes ",".
   */
  function UnescapeCsv(s: string): (r: string)
    ensures |r| <= |s|
  {
    if s == [] then []
    else if |s| >= 2 && s[0] == ';' && s[1] == ';' then "," + UnescapeCsv(s[2..])
    else [s[0]] + UnescapeCsv(s[1..])
  }

  /** Reading back an escaped field gives the field, as long as it holds no ';'. */
  lemma {:induction false} UnescapeEscape(s: string)
    requires ';' !in s
    ensures UnescapeCsv(EscapeCsv(s)) == s
  {
    if s != [] {
      UnescapeEscape(s[1..]);
      assert s == [s[0]] + s[1..];
      if s[0] != ',' {
        var rest := EscapeCsv(s[1..]);
        assert EscapeCsv(s) == [s[0]] + rest;
        assert ([s[0]] + rest)[1..] == rest;
      } else {
        var rest := EscapeCsv(s[1..]);
        assert EscapeCsv(s) == ";;" + rest;
        assert (";;" + rest)[2..] == rest;
      }
    }
  }

  /** A field that already holds ";;" is not read back as written: ";;" comes back as ",". */
  lemma EscapeRoundTripFails()
    ensures EscapeCsv(";;") == ";;"
    ensures UnescapeCsv(EscapeCsv(";;")) == ","
    ensures UnescapeCsv(EscapeCsv(";;")) != ";;"
  {
    assert EscapeCsv(";;") == ";" + EscapeCsv(";") by {
      assert (";;")[1..] == ";";
    }
    assert EscapeCsv(";") == ";" + EscapeCsv("") by {
      assert (";")[1..] == "";
    }
    assert (";;")[2..] == "";
  }

  /**
   * An escape that can always be undone: ';' itself is escaped as ";;" and
   * ',' as ";c", so ';' only ever starts a two-character code.
   */
  function EscapeField(s: string): (r: string)
    ensures ',' !in r
  {
    if s == [] then []
    else (if s[0] == ',' then ";c" else if s[0] == ';' then ";;" else [s[0]]) + EscapeField(s[1..])
  }

  function UnescapeField(s: string): string {
    if |s| >= 2 && s[0] == ';' && s[1] == 'c' then "," + UnescapeField(s[2..])
    else if |s| >= 2 && s[0] == ';' && s[1] == ';' then ";" + UnescapeField(s[2..])
    else if s == [] then []
    else [s[0]] + UnescapeField(s[1..])
  }

  /** With ';' escaped too, every field reads back exactly as written. */
  lemma {:induction false} UnescapeEscapeField(s: string)
    ensures UnescapeField(EscapeField(s)) == s
  {
    if s != [] {
      UnescapeEscapeField(s[1..]);
      var rest := EscapeField(s[1..]);
      assert s == [s[0]] + s[1..];
      if s[0] == ',' {
        assert EscapeField(s) == ";c" + rest;
        assert (";c" + rest)[2..] == rest;
      } else if s[0] == ';' {
        assert EscapeField(s) == ";;" + rest;
        assert (";;" + rest)[2..] == rest;
      } else {
        assert EscapeField(s) == [s[0]] + rest;
        assert ([s[0]] + rest)[1..] == rest;
      }
    }
  }

  /** `line.split(",", -1)`: the comma-separated pieces, empty ones included; never empty. */
  function Split(line: string): (parts: seq<string>)
    ensures |parts| == CountOf(line, ',') + 1
    ensures forall i :: 0 <= i < |parts| ==> ',' !in parts[i]
  {
    if line == [] then [[]]
    else
      var rest := Split(line[1..]);
      if line[0] == ',' then [[]] + rest
      else [[line[0]] + rest[0]] + rest[1..]
  }

  /** The parts joined with "," between them. */
  function Join(parts: seq<string>): string {
    if parts == [] then []
    else if |parts| == 1 then parts[0]
    else parts[0] + "," + Join(parts[1..])
  }

  /** Joining the pieces of a split gives back the line. */
  lemma {:induction false} JoinSplit(line: string)
    ensures Join(Split(line)) == line
  {
    if line != [] {
      JoinSplit(line[1..]);
      var rest := Split(line[1..]);
      assert line == [line[0]] + line[1..];
      if line[0] == ',' {
        assert Join([[]] + rest) == [] + "," + Join(rest);
      } else if |rest| == 1 {
        assert Split(line) == [[line[0]] + rest[0]];
      } else {
        assert ([[line[0]] + rest[0]] + rest[1..])[1..] == rest[1..];
        assert rest == [rest[0]] + rest[1..];
      }
    }
  }

  /** Splitting a join of comma-free pieces gives back the pieces. */
  lemma {:induction false} SplitJoin(parts: seq<string>)
    requires |parts| >= 1
    requires forall i :: 0 <= i < |parts| ==> ',' !in parts[i]
    ensures Split(Join(parts)) == parts
    decreases |parts|, |parts[0]|
  {
    var p := parts[0];
    if p == [] {
      if |parts| > 1 {
        SplitJoin(parts[1..]);
        assert Join(parts) == "," + Join(parts[1..]);
        assert ("," + Join(parts[1..]))[1..] == Join(parts[1..]);
      }
    } else {
      var shorter := [p[1..]] + parts[1..];
      SplitJoin(shorter);
      assert Join(parts) == [p[0]] + Join(shorter) by {
        if |parts| > 1 {
          assert shorter[1..] == parts[1..];
        }
      }
      assert ([p[0]] + Join(shorter))[1..] == Join(shorter);
      assert p == [p[0]] + p[1..];
    }
  }

  /** Joining a prefix of the parts with the join of the rest is joining all of them. */
  lemma {:induction false} JoinFold(parts: seq<string>, k: nat)
    requires k < |parts|
    ensures Join(parts[..k] + [Join(parts[k..])]) == Join(parts)
    decreases k
  {
    if k == 0 {
      assert parts[..0] + [Join(parts[0..])] == [Join(parts)];
      assert parts[0..] == parts;
    } else {
      JoinFold(parts[1..], k - 1);
      var folded := parts[..k] + [Join(parts[k..])];
      assert folded[1..] == parts[1..][..k - 1] + [Join(parts[1..][k - 1..])];
      assert folded[0] == parts[0];
    }
  }

  /**
   * Splits a line into at most `limit` fields. With `limit` pieces or fewer,
   * those are the fields; otherwise the first `limit - 1` pieces are kept and
   * the rest are joined back, commas included, into the last field.
   */
  method SplitCsvLine(line: string, limit: int) returns (fields: seq<string>)
    requires limit >= 1
    ensures |Split(line)| <= limit ==> fields == Split(line)
    ensures |Split(line)| > limit ==>
      |fields| == limit &&
      fields[..limit - 1] == Split(line)[..limit - 1] &&
      fields[limit - 1] == Join(Split(line)[limit - 1..])
    ensures Join(fields) == line
  {
    var parts := Split(line);
    JoinSplit(line);
    if |parts| <= limit {
      return parts;
    }
    var out := new string[limit];
    forall i | 0 <= i < limit - 1 {
      out[i] := parts[i];
    }
    var last := JoinFrom(parts, limit - 1);
    out[limit - 1] := last;
    fields := out[..];
    assert fields[..limit - 1] == parts[..limit - 1];
    assert fields == parts[..limit - 1] + [last];
    JoinFold(parts, limit - 1);
  }

  /** The `StringBuilder` loop: `parts[start]`, then "," and the next part, up to the end. */
  method JoinFrom(parts: seq<string>, start: nat) returns (sb: string)
    requires start < |parts|
    ensures sb == Join(parts[start..])
  {
    sb := parts[start];
    assert parts[start..start + 1] == [parts[start]];
    for i := start + 1 to |parts|
      invariant sb == Join(parts[start..i])
    {
      JoinSnoc(parts[start..i], parts[i]);
      assert parts[start..i + 1] == parts[start..i] + [parts[i]];
      sb := sb + "," + parts[i];
    }
    assert parts[start..|parts|] == parts[start..];
  }

  /** Appending one more part adds "," and that part at the end. */
  lemma {:induction false} JoinSnoc(parts: seq<string>, p: string)
    requires |parts| >= 1
    ensures Join(parts + [p]) == Join(parts) + "," + p
    decreases |parts|
  {
    if |parts| == 1 {
      assert parts + [p] == [parts[0], p];
    } else {
      JoinSnoc(parts[1..], p);
      assert (parts + [p])[1..] == parts[1..] + [p];
    }
  }
}
