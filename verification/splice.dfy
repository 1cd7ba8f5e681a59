/** `substitute_value`: puts a new value between the quotes of an attribute of a line of
    markup by string search and splicing, exactly as the script does it (first occurrence
    of the marker only, Python's slice semantics when a search fails). */
module Splice {
  import opened PyStr

  /** What the splice searches for: the attribute name followed by `="`. */
  function Marker(attribute: string): (m: string)
    ensures |m| == |attribute| + 2 && m[..|attribute|] == attribute
    ensures m[|attribute|] == '=' && m[|attribute| + 1] == '"'
  {
    attribute + "=\""
  }

  /** substitute_value(line, attribute, new_value). `find` returns -1 when it fails, and the
      slices then read that -1 the way Python does; the function keeps that behaviour. */
  function SubstituteValue(line: string, attribute: string, newValue: string): string
  {
    var markerLeft := Marker(attribute);
    var posLeft := Find(line, markerLeft, 0);
    var posRight := Find(line, "\"", posLeft + |markerLeft|);
    line[..SliceBound(posLeft + |markerLeft|, |line|)] + newValue + line[SliceBound(posRight, |line|)..]
  }

  /** Text that a later search on the same line cannot mistake for part of a marker:
      no double quote and no equals sign. */
  predicate Inert(s: string)
  {
    '"' !in s && '=' !in s
  }

  /** `m` occurs nowhere in `s`. */
  ghost predicate Absent(s: string, m: string)
  {
    forall k :: !OccursAt(s, m, k)
  }

  /** When the marker occurs and a double quote follows it, the result is the line up to the end
      of the FIRST marker, the new value, and the line from the next double quote on. */
  lemma SpliceResult(line: string, attribute: string, newValue: string, p: nat, q: nat)
    requires OccursAt(line, Marker(attribute), p)
    requires forall k :: 0 <= k < p ==> !OccursAt(line, Marker(attribute), k)
    requires p + |Marker(attribute)| <= q < |line| && line[q] == '"'
    requires forall j :: p + |Marker(attribute)| <= j < q ==> line[j] != '"'
    ensures SubstituteValue(line, attribute, newValue)
            == line[..p + |Marker(attribute)|] + newValue + line[q..]
  {
    var m := Marker(attribute);
    var posLeft := Find(line, m, 0);
    assert posLeft == p;
    OccursAtChar(line, '"', q);
    forall j | p + |m| <= j < q
      ensures !OccursAt(line, "\"", j)
    {
      OccursAtChar(line, '"', j);
    }
    assert Find(line, "\"", p + |m|) == q;
  }

  /** When the marker occurs but no double quote follows it, `find` gives -1 and the slice
      `line[-1:]` keeps only the last character of the line after the new value. */
  lemma SpliceUnclosed(line: string, attribute: string, newValue: string, p: nat)
    requires OccursAt(line, Marker(attribute), p)
    requires forall k :: 0 <= k < p ==> !OccursAt(line, Marker(attribute), k)
    requires forall j :: p + |Marker(attribute)| <= j < |line| ==> line[j] != '"'
    ensures SubstituteValue(line, attribute, newValue)
            == line[..p + |Marker(attribute)|] + newValue + [line[|line| - 1]]
  {
    var m := Marker(attribute);
    assert Find(line, m, 0) == p;
    forall j | p + |m| <= j < |line|
      ensures !OccursAt(line, "\"", j)
    {
      OccursAtChar(line, '"', j);
    }
    assert Find(line, "\"", p + |m|) == -1;
    assert line[|line| - 1..] == [line[|line| - 1]];
  }

  /** The marker's only double quote is its last character. */
  lemma MarkerQuote(attribute: string, i: int)
    requires '"' !in attribute && 0 <= i <= |attribute|
    ensures Marker(attribute)[i] != '"'
  {
    if i < |attribute| {
      assert Marker(attribute)[i] == Marker(attribute)[..|attribute|][i];
    }
  }

  /** One differing character rules out an occurrence. */
  lemma Mismatch(s: string, m: string, k: int, i: int)
    requires 0 <= k && k + |m| <= |s| && 0 <= i < |m| && s[k + i] != m[i]
    ensures !OccursAt(s, m, k)
  {
    assert s[k..k + |m|][i] == s[k + i];
  }

  /** The empty-placeholder case the templates rely on: if the marker does not occur before the
      placeholder and the placeholder is `""`, the new value lands between its quotes, the rest
      of the line (including any later occurrence of the marker) is kept, and the line grows by
      exactly the length of the value. */
  lemma SplicePlaceholder(before: string, attribute: string, after: string, newValue: string)
    requires '"' !in attribute
    requires Absent(before, Marker(attribute))
    requires |after| > 0 && after[0] == '"'
    ensures SubstituteValue(before + Marker(attribute) + after, attribute, newValue)
            == before + Marker(attribute) + newValue + after
    ensures |SubstituteValue(before + Marker(attribute) + after, attribute, newValue)|
            == |before + Marker(attribute) + after| + |newValue|
  {
    var m := Marker(attribute);
    var line := before + m + after;
    assert OccursAt(line, m, |before|) by {
      assert line[|before|..|before| + |m|] == m;
    }
    forall k | 0 <= k < |before|
      ensures !OccursAt(line, m, k)
    {
      if k + |m| <= |before| {
        assert line[k..k + |m|] == before[k..k + |m|];
        assert !OccursAt(before, m, k);
      } else {
        var e := k + |m| - 1;
        MarkerQuote(attribute, e - |before|);
        assert line[e] == m[e - |before|];
        Mismatch(line, m, k, |m| - 1);
      }
    }
    assert line[|before| + |m|] == '"';
    SpliceResult(line, attribute, newValue, |before|, |before| + |m|);
    assert line[..|before| + |m|] == before + m;
    assert line[|before| + |m|..] == after;
  }

  /** When the marker does not occur, `find` gives -1 and the splice does not leave the line
      alone: the new value goes in after the first |attribute| + 1 characters. */
  lemma SpliceMissing(line: string, attribute: string, newValue: string)
    requires Absent(line, Marker(attribute)) && |attribute| + 1 <= |line|
    ensures var r := SubstituteValue(line, attribute, newValue);
            |r| >= |attribute| + 1 + |newValue|
            && r[..|attribute| + 1] == line[..|attribute| + 1]
            && r[|attribute| + 1..|attribute| + 1 + |newValue|] == newValue
  {
    assert Find(line, Marker(attribute), 0) == -1;
  }

  /** Every character of the splice result comes from the line or from the new value, whether
      or not the searches succeed. */
  lemma SpliceChars(line: string, attribute: string, newValue: string)
    ensures forall c :: c in SubstituteValue(line, attribute, newValue) ==> c in line || c in newValue
  {
    var m := Marker(attribute);
    var posLeft := Find(line, m, 0);
    var posRight := Find(line, "\"", posLeft + |m|);
    var front := line[..SliceBound(posLeft + |m|, |line|)];
    var back := line[SliceBound(posRight, |line|)..];
    assert SubstituteValue(line, attribute, newValue) == front + newValue + back;
    forall c | c in front + newValue + back
      ensures c in line || c in newValue
    {
      if c in front {
        var i :| 0 <= i < |front| && front[i] == c;
        assert line[i] == c;
      } else if c in back {
        var i :| 0 <= i < |back| && back[i] == c;
        assert line[SliceBound(posRight, |line|) + i] == c;
      }
    }
  }

  /** An attribute with an empty value: `attribute=""`. */
  function Placeholder(attribute: string): (p: string)
    ensures |p| == |attribute| + 3
  {
    Marker(attribute) + "\""
  }

  /** An attribute with a value: `attribute="value"`. */
  function Filled(attribute: string, value: string): (f: string)
    ensures |f| == |attribute| + |value| + 3 && f[|f| - 1] == '"'
  {
    Marker(attribute) + value + "\""
  }

  /** A filled attribute reads as the marker, then the value, then the closing quote. */
  lemma FilledParts(attribute: string, value: string)
    ensures var f := Filled(attribute, value);
            f[..|attribute| + 2] == Marker(attribute) && f[|attribute| + 2..|f| - 1] == value
  {
  }

  /** The placeholder form of SplicePlaceholder: `head attribute="" tail` becomes
      `head attribute="value" tail` when the marker does not occur in `head`. */
  lemma SpliceIntoPlaceholder(head: string, attribute: string, tail: string, value: string)
    requires '"' !in attribute
    requires Absent(head, Marker(attribute))
    ensures SubstituteValue(head + Placeholder(attribute) + tail, attribute, value)
            == head + Filled(attribute, value) + tail
  {
    var m := Marker(attribute);
    SplicePlaceholder(head, attribute, "\"" + tail, value);
    assert head + Placeholder(attribute) + tail == head + m + ("\"" + tail);
    assert head + Filled(attribute, value) + tail == head + m + value + ("\"" + tail);
  }

  /** A string with no double quote holds no marker. */
  lemma AbsentQuoteFree(s: string, attribute: string)
    requires '"' !in s && '"' !in attribute
    ensures Absent(s, Marker(attribute))
  {
    var m := Marker(attribute);
    forall k ensures !OccursAt(s, m, k)
    {
      if 0 <= k && k + |m| <= |s| {
        Mismatch(s, m, k, |m| - 1);
      }
    }
  }

  /** A string whose only double quote is its last character holds the marker only if the
      text before that quote ends with the attribute and `=`; seeing that the last character
      before the quote is not `=`, or the one before it is not the attribute's last, rules
      the marker out. */
  lemma AbsentQuoted(text: string, attribute: string)
    requires '"' !in text && '"' !in attribute && |attribute| > 0
    requires |text| < |attribute| + 1 || text[|text| - 1] != '='
             || text[|text| - 2] != attribute[|attribute| - 1]
    ensures Absent(text + "\"", Marker(attribute))
  {
    var s := text + "\"";
    var m := Marker(attribute);
    forall k ensures !OccursAt(s, m, k)
    {
      if 0 <= k && k + |m| <= |s| {
        var e := k + |m| - 1;
        if e < |text| {
          Mismatch(s, m, k, |m| - 1);
        } else if text[|text| - 1] != '=' {
          Mismatch(s, m, k, |m| - 2);
        } else {
          assert m[|m| - 3] == attribute[|attribute| - 1];
          Mismatch(s, m, k, |m| - 3);
        }
      }
    }
  }

  /** Joining after a closing double quote cannot create a marker across the seam. */
  lemma AbsentAfterQuote(left: string, right: string, attribute: string)
    requires '"' !in attribute
    requires |left| > 0 && left[|left| - 1] == '"'
    requires Absent(left, Marker(attribute)) && Absent(right, Marker(attribute))
    ensures Absent(left + right, Marker(attribute))
  {
    var m := Marker(attribute);
    var s := left + right;
    forall k ensures !OccursAt(s, m, k)
    {
      if 0 <= k && k + |m| <= |s| {
        if k + |m| <= |left| {
          assert s[k..k + |m|] == left[k..k + |m|];
          assert !OccursAt(left, m, k);
        } else if k >= |left| {
          assert s[k..k + |m|] == right[k - |left|..k - |left| + |m|];
          assert !OccursAt(right, m, k - |left|);
        } else {
          MarkerQuote(attribute, |left| - 1 - k);
          Mismatch(s, m, k, |left| - 1 - k);
        }
      }
    }
  }

  /** Splicing inert text between a closing quote and an opening quote cannot create a marker:
      this is what keeps the second splice on a line aimed at its own placeholder. */
  lemma AbsentAroundInert(left: string, value: string, right: string, attribute: string)
    requires '"' !in attribute
    requires |left| > 0 && left[|left| - 1] == '"'
    requires |right| > 0 && right[0] == '"'
    requires Inert(value)
    requires Absent(left, Marker(attribute)) && Absent(right, Marker(attribute))
    ensures Absent(left + value + right, Marker(attribute))
  {
    var m := Marker(attribute);
    var s := left + value + right;
    var seam := |left| + |value|;
    forall k ensures !OccursAt(s, m, k)
    {
      if 0 <= k && k + |m| <= |s| {
        var e := k + |m| - 1;
        if e < |left| {
          assert s[k..k + |m|] == left[k..k + |m|];
          assert !OccursAt(left, m, k);
        } else if k >= seam {
          assert s[k..k + |m|] == right[k - seam..k - seam + |m|];
          assert !OccursAt(right, m, k - seam);
        } else if k < |left| {
          MarkerQuote(attribute, |left| - 1 - k);
          Mismatch(s, m, k, |left| - 1 - k);
        } else if e < seam {
          assert s[e] == value[e - |left|];
          Mismatch(s, m, k, |m| - 1);
        } else if e > seam {
          MarkerQuote(attribute, seam - k);
          Mismatch(s, m, k, seam - k);
        } else {
          assert s[e - 1] == value[|value| - 1];
          Mismatch(s, m, k, |m| - 2);
        }
      }
    }
  }

  /** Quote-free text followed by a filled attribute whose name does not end like `attribute`
      holds no marker of `attribute`, provided the value is inert. */
  lemma AbsentFilledText(text: string, x: string, value: string, attribute: string)
    requires '"' !in text && '"' !in x && '"' !in attribute
    requires x != [] && attribute != [] && x[|x| - 1] != attribute[|attribute| - 1]
    requires Inert(value)
    ensures Absent(text + Filled(x, value), Marker(attribute))
  {
    var t := text + x + "=";
    assert t[|t| - 2] == x[|x| - 1];
    AbsentQuoted(t, attribute);
    AbsentQuoted("", attribute);
    AbsentAroundInert(t + "\"", value, "" + "\"", attribute);
    assert text + Filled(x, value) == t + "\"" + value + ("" + "\"");
  }

  /** The same after text that ends with a closing quote and holds no marker. */
  lemma AbsentFilledAfter(prev: string, text: string, x: string, value: string, attribute: string)
    requires prev != [] && prev[|prev| - 1] == '"' && Absent(prev, Marker(attribute))
    requires '"' !in text && '"' !in x && '"' !in attribute
    requires x != [] && attribute != [] && x[|x| - 1] != attribute[|attribute| - 1]
    requires Inert(value)
    ensures Absent(prev + text + Filled(x, value), Marker(attribute))
  {
    AbsentFilledText(text, x, value, attribute);
    AbsentAfterQuote(prev, text + Filled(x, value), attribute);
    assert prev + text + Filled(x, value) == prev + (text + Filled(x, value));
  }

  /** Quote-free text after a closing quote adds no marker. */
  lemma AbsentTextAfter(prev: string, text: string, attribute: string)
    requires prev != [] && prev[|prev| - 1] == '"' && Absent(prev, Marker(attribute))
    requires '"' !in text && '"' !in attribute
    ensures Absent(prev + text, Marker(attribute))
  {
    AbsentQuoteFree(text, attribute);
    AbsentAfterQuote(prev, text, attribute);
  }
}
