/** Packed keyword tables: strstr over the whole table, then a division by the row width. */
module TopicTable {
  import opened Options
  import opened CStrings

  /** One row of `char list[n][width]`: C cuts a longer literal and zero-fills after a shorter one. */
  function Row(literal: string, width: nat): (row: string)
    ensures |row| == width
  {
    if |literal| >= width then literal[..width] else literal + seq(width - |literal|, _ => '\0')
  }

  function Table(literals: seq<string>, width: nat): string {
    if literals == [] then "" else Row(literals[0], width) + Table(literals[1..], width)
  }

  /** The code's lookup: the row number of the first place the needle occurs in the table text. */
  function Lookup(text: string, width: nat, needle: string): Option<nat>
    requires width > 0
  {
    match StrStr(text, needle)
    case None => None
    case Some(offset) => Some(offset / width)
  }

  // ---- what the lookup is for

  function FirstContaining(keys: seq<string>, needle: string): (r: Option<nat>)
    ensures r.Some? ==> r.value < |keys| && StrStr(keys[r.value], needle).Some?
    ensures r.Some? ==> forall i :: 0 <= i < r.value ==> StrStr(keys[i], needle).None?
    ensures r.None? ==> forall i :: 0 <= i < |keys| ==> StrStr(keys[i], needle).None?
  {
    if keys == [] then None
    else if StrStr(keys[0], needle).Some? then Some(0)
    else
      match FirstContaining(keys[1..], needle)
      case None => None
      case Some(i) => Some(i + 1)
  }

  predicate StarFree(s: string) {
    forall i :: 0 <= i < |s| ==> s[i] != '*'
  }

  /** `row` is the '*'-free `key` followed by at least one '*' and nothing else. */
  ghost predicate Padded(row: string, key: string) {
    && StarFree(key) && key < row
    && forall i :: |key| <= i < |row| ==> row[i] == '*'
  }

  ghost predicate Packed(text: string, width: nat, keys: seq<string>) {
    if keys == [] then text == ""
    else |text| >= width && Padded(text[..width], keys[0]) && Packed(text[width..], width, keys[1..])
  }

  /** A '*'-free needle that starts inside a row ends inside that row's keyword. */
  lemma OccurrenceInRow(text: string, width: nat, key: string, needle: string, i: nat)
    requires |text| >= width && Padded(text[..width], key)
    requires needle != "" && StarFree(needle) && i < width
    ensures OccursAt(text, needle, i) <==> OccursAt(key, needle, i)
  {
    assert forall j :: 0 <= j < |key| ==> text[j] == text[..width][j] == key[j];
    assert forall j :: |key| <= j < width ==> text[j] == text[..width][j] == '*';
    if OccursAt(text, needle, i) {
      assert forall j :: 0 <= j < |needle| ==> needle[j] == text[i..i + |needle|][j] == text[i + j];
      assert forall j :: i <= j < i + |needle| ==> text[j] == needle[j - i];
      assert text[i] == needle[0] && i < |key|;
      assert text[|key|] == '*';
      assert text[i..i + |needle|] == key[i..i + |needle|];
    }
    if OccursAt(key, needle, i) {
      assert text[i..i + |needle|] == key[i..i + |needle|];
    }
  }

  lemma OccurrenceAfterRow(text: string, width: nat, needle: string, i: nat)
    requires width <= |text| && width <= i
    ensures OccursAt(text, needle, i) <==> OccursAt(text[width..], needle, i - width)
  {
    if i + |needle| <= |text| {
      assert text[i..i + |needle|] == text[width..][i - width..i - width + |needle|];
    }
  }

  lemma MulMono(a: int, b: int, w: nat)
    requires a + 1 <= b
    ensures a * w + w <= b * w
  {
    assert b * w == (a + 1) * w + (b - a - 1) * w;
    assert (b - a - 1) * w >= 0;
  }

  lemma DivUnique(x: int, w: nat, q: int, r: int)
    requires 0 <= r < w && x == q * w + r
    ensures x / w == q
  {
    if x / w < q {
      MulMono(x / w, q, w);
    } else if q < x / w {
      MulMono(q, x / w, w);
    }
  }

  lemma FoundInRow(text: string, width: nat, key: string, needle: string)
    requires 0 < width <= |text| && Padded(text[..width], key)
    requires needle != "" && StarFree(needle)
    requires StrStr(key, needle).Some?
    ensures Lookup(text, width, needle) == Some(0)
  {
    OccurrenceInRow(text, width, key, needle, StrStr(key, needle).value);
    hide OccursAt, Padded, StarFree;
    var offset := StrStr(text, needle).value;
    DivUnique(offset, width, 0, offset);
  }

  lemma NotInRow(text: string, width: nat, key: string, needle: string)
    requires 0 < width <= |text| && Padded(text[..width], key)
    requires needle != "" && StarFree(needle)
    requires StrStr(key, needle).None?
    ensures StrStr(text, needle) == match StrStr(text[width..], needle) case None => None case Some(k) => Some(k + width)
  {
    hide OccursAt, Padded, StarFree;
    var whole, inRest := StrStr(text, needle), StrStr(text[width..], needle);
    if whole.Some? {
      if whole.value < width {
        OccurrenceInRow(text, width, key, needle, whole.value);
      } else {
        OccurrenceAfterRow(text, width, needle, whole.value);
      }
    }
    if inRest.Some? {
      OccurrenceAfterRow(text, width, needle, inRest.value + width);
    }
  }

  lemma RowAfter(offset: nat, width: nat)
    requires width > 0
    ensures (offset + width) / width == offset / width + 1
  {
    DivUnique(offset + width, width, offset / width + 1, offset % width);
  }

  lemma FoundAfterRow(text: string, width: nat, key: string, needle: string)
    requires 0 < width <= |text| && Padded(text[..width], key)
    requires needle != "" && StarFree(needle)
    requires StrStr(key, needle).None?
    ensures Lookup(text, width, needle) ==
            match Lookup(text[width..], width, needle) case None => None case Some(i) => Some(i + 1)
  {
    hide Padded, StarFree, StrStr, OccursAt;
    NotInRow(text, width, key, needle);
    var inRest := StrStr(text[width..], needle);
    if inRest.Some? {
      RowAfter(inRest.value, width);
    }
  }

  /** The fast form refines the plain one: the row found is the first keyword containing the needle. */
  lemma {:induction false} LookupIsFirstKeyword(text: string, width: nat, keys: seq<string>, needle: string)
    requires width > 0 && Packed(text, width, keys)
    requires needle != "" && StarFree(needle)
    ensures Lookup(text, width, needle) == FirstContaining(keys, needle)
  {
    if keys == [] {
      assert StrStr(text, needle).None?;
    } else {
      LookupIsFirstKeyword(text[width..], width, keys[1..], needle);
      if StrStr(keys[0], needle).Some? {
        FoundInRow(text, width, keys[0], needle);
      } else {
        FoundAfterRow(text, width, keys[0], needle);
      }
    }
  }

  /** An empty needle occurs at once, so an empty topic segment reads as the first keyword. */
  lemma EmptyNeedle(text: string, width: nat)
    requires width > 0
    ensures Lookup(text, width, "") == Some(0)
  {
    assert OccursAt(text, "", 0);
  }
}
