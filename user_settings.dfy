/** The parsing half of reading one section of the settings file: the
    decoded section text holds NUL-separated `key=value` entries, which
    become a dictionary with trimmed keys and values, malformed entries
    dropped and the last of repeated keys kept. */
module UserSettings {
  import opened Wrappers
  import Lists

  const NUL: char := '\0'

  /** The characters String.Trim() removes (char.IsWhiteSpace). */
  predicate IsWhiteSpace(c: char)
  {
    || '\U{0009}' <= c <= '\U{000D}' || c == '\U{0020}' || c == '\U{0085}' || c == '\U{00A0}'
    || c == '\U{1680}' || '\U{2000}' <= c <= '\U{200A}' || c == '\U{2028}' || c == '\U{2029}'
    || c == '\U{202F}' || c == '\U{205F}' || c == '\U{3000}'
  }

  predicate IsNul(c: char)
  {
    c == NUL
  }

  // ---------------------------------------------------------------------------
  // Trimming

  /** s has no character to strip at either end. */
  predicate Trimmed(s: string, strip: char -> bool)
  {
    s == [] || (!strip(s[0]) && !strip(s[|s| - 1]))
  }

  predicate AllStripped(s: string, strip: char -> bool)
  {
    forall i :: 0 <= i < |s| ==> strip(s[i])
  }

  /** s without its leading run of characters to strip. */
  function TrimStart(s: string, strip: char -> bool): string
  {
    if s != [] && strip(s[0]) then TrimStart(s[1..], strip) else s
  }

  /** s without its trailing run of characters to strip. */
  function TrimEnd(s: string, strip: char -> bool): string
  {
    if s != [] && strip(s[|s| - 1]) then TrimEnd(s[..|s| - 1], strip) else s
  }

  /** String.Trim(c) and String.Trim(): strip both ends. */
  function TrimBy(s: string, strip: char -> bool): string
  {
    TrimEnd(TrimStart(s, strip), strip)
  }

  function Trim(s: string): string
  {
    TrimBy(s, IsWhiteSpace)
  }

  /** TrimStart removes a prefix of characters to strip and stops at the
      first character to keep. */
  lemma {:induction false} TrimStartSpec(s: string, strip: char -> bool)
    ensures var r := TrimStart(s, strip);
            && |r| <= |s| && r == s[|s| - |r|..]
            && AllStripped(s[..|s| - |r|], strip)
            && (r == [] || !strip(r[0]))
    decreases |s|
  {
    if s != [] && strip(s[0]) {
      TrimStartSpec(s[1..], strip);
      var r := TrimStart(s[1..], strip);
      var n := |s| - |r|;
      assert s[1..][|s| - 1 - |r|..] == s[n..];
      forall i | 0 <= i < n ensures strip(s[..n][i]) {
        if i > 0 {
          assert s[..n][i] == s[1..][..n - 1][i - 1];
        }
      }
    }
  }

  /** TrimEnd removes a suffix of characters to strip and stops at the
      last character to keep. */
  lemma {:induction false} TrimEndSpec(s: string, strip: char -> bool)
    ensures var r := TrimEnd(s, strip);
            && |r| <= |s| && r == s[..|r|]
            && AllStripped(s[|r|..], strip)
            && (r == [] || !strip(r[|r| - 1]))
    decreases |s|
  {
    if s != [] && strip(s[|s| - 1]) {
      var init := s[..|s| - 1];
      TrimEndSpec(init, strip);
      var r := TrimEnd(init, strip);
      assert init[..|r|] == s[..|r|];
      forall i | 0 <= i < |s| - |r| ensures strip(s[|r|..][i]) {
        if i < |init| - |r| {
          assert s[|r|..][i] == init[|r|..][i];
        }
      }
    }
  }

  /** Trimming leaves nothing to strip at either end. */
  lemma TrimByTrimmed(s: string, strip: char -> bool)
    ensures Trimmed(TrimBy(s, strip), strip)
  {
    var a := TrimStart(s, strip);
    TrimStartSpec(s, strip);
    TrimEndSpec(a, strip);
    var t := TrimEnd(a, strip);
    if t != [] {
      assert t[0] == a[0];
    }
  }

  /** Trimming removes only characters to strip: a stripped prefix and a
      stripped suffix around the result. */
  lemma TrimByRemovesStripped(s: string, strip: char -> bool)
    ensures var t := TrimBy(s, strip);
              exists i :: (0 <= i <= |s| - |t| && s[i..i + |t|] == t
                           && AllStripped(s[..i], strip) && AllStripped(s[i + |t|..], strip))
  {
    var a := TrimStart(s, strip);
    TrimStartSpec(s, strip);
    TrimEndSpec(a, strip);
    var t := TrimEnd(a, strip);
    var i := |s| - |a|;
    assert s[i..i + |t|] == a[..|t|];
    assert s[i + |t|..] == a[|t|..];
  }

  /** A stripped prefix is all TrimStart removes when what follows does not
      start with a character to strip. */
  lemma {:induction false} TrimStartPrefix(a: string, b: string, strip: char -> bool)
    requires AllStripped(a, strip) && (b == [] || !strip(b[0]))
    ensures TrimStart(a + b, strip) == b
    decreases |a|
  {
    if a != [] {
      assert (a + b)[0] == a[0];
      assert (a + b)[1..] == a[1..] + b;
      TrimStartPrefix(a[1..], b, strip);
    } else {
      assert a + b == b;
    }
  }

  /** Likewise for a stripped suffix and TrimEnd. */
  lemma {:induction false} TrimEndSuffix(b: string, c: string, strip: char -> bool)
    requires AllStripped(c, strip) && (b == [] || !strip(b[|b| - 1]))
    ensures TrimEnd(b + c, strip) == b
    decreases |c|
  {
    if c != [] {
      var s := b + c;
      assert s[|s| - 1] == c[|c| - 1];
      assert s[..|s| - 1] == b + c[..|c| - 1];
      TrimEndSuffix(b, c[..|c| - 1], strip);
    } else {
      assert b + c == b;
    }
  }

  /** A text with nothing to strip at its ends trims to itself. */
  lemma TrimOfTrimmed(b: string, strip: char -> bool)
    requires Trimmed(b, strip)
    ensures TrimBy(b, strip) == b
  {
    TrimStartPrefix([], b, strip);
    TrimEndSuffix(b, [], strip);
    assert [] + b == b && b + [] == b;
  }

  /** A text padded on both sides with characters to strip trims back to
      itself when it has nothing to strip at its ends. */
  lemma TrimPadded(a: string, b: string, c: string, strip: char -> bool)
    requires AllStripped(a, strip) && AllStripped(c, strip) && Trimmed(b, strip)
    ensures TrimBy(a + b + c, strip) == b
  {
    if b == [] {
      assert a + b + c == (a + c) + b;
      TrimStartPrefix(a + c, b, strip);
      TrimEndSuffix(b, b, strip);
      assert b + b == b;
    } else {
      assert a + b + c == a + (b + c);
      TrimStartPrefix(a, b + c, strip);
      TrimEndSuffix(b, c, strip);
    }
  }

  // ---------------------------------------------------------------------------
  // Splitting

  /** The index of the first `c` in s. */
  function IndexOf(s: string, c: char): (i: nat)
    requires c in s
    ensures i < |s| && s[i] == c && c !in s[..i]
  {
    if s[0] == c then 0 else 1 + IndexOf(s[1..], c)
  }

  /** The first `c` of a + [c] + b is the one after a, when a has none. */
  lemma {:induction false} IndexOfAfter(a: string, c: char, b: string)
    requires c !in a
    ensures c in a + [c] + b && IndexOf(a + [c] + b, c) == |a|
    decreases |a|
  {
    var s := a + [c] + b;
    assert s[|a|] == c;
    if a != [] {
      assert s[1..] == a[1..] + [c] + b;
      IndexOfAfter(a[1..], c, b);
    }
  }

  /** The fields joined back with the separator between them. */
  function Join(fields: seq<string>, sep: char): string
    requires |fields| >= 1
  {
    if |fields| == 1 then fields[0] else fields[0] + [sep] + Join(fields[1..], sep)
  }

  /** String.Split(sep): the maximal separator-free fields, empty ones
      included; a text without the separator is one field. */
  function Split(s: string, sep: char): (fields: seq<string>)
    ensures |fields| >= 1
    decreases |s|
  {
    if sep !in s then [s]
    else
      var i := IndexOf(s, sep);
      [s[..i]] + Split(s[i + 1..], sep)
  }

  /** Split yields more than one field exactly when the separator occurs. */
  lemma SplitCount(s: string, sep: char)
    ensures |Split(s, sep)| == 1 <==> sep !in s
  {
  }

  /** No field holds the separator. */
  lemma {:induction false} SplitFields(s: string, sep: char)
    ensures forall i :: 0 <= i < |Split(s, sep)| ==> sep !in Split(s, sep)[i]
    decreases |s|
  {
    if sep in s {
      var i := IndexOf(s, sep);
      SplitFields(s[i + 1..], sep);
    }
  }

  /** A text whose first separator follows a splits into a and the fields
      of what comes after that separator. */
  lemma FirstField(a: string, sep: char, b: string)
    requires sep !in a
    ensures Split(a + [sep] + b, sep) == [a] + Split(b, sep)
  {
    var s := a + [sep] + b;
    IndexOfAfter(a, sep, b);
    assert s[..|a|] == a;
    assert s[|a| + 1..] == b;
  }

  /** Joining the fields back with the separator gives the text again. */
  lemma {:induction false} JoinSplit(s: string, sep: char)
    ensures Join(Split(s, sep), sep) == s
    decreases |s|
  {
    if sep in s {
      var i := IndexOf(s, sep);
      JoinSplit(s[i + 1..], sep);
      assert s == s[..i] + [sep] + s[i + 1..];
    }
  }

  /** Splitting undoes joining fields that do not hold the separator. */
  lemma {:induction false} SplitJoin(fields: seq<string>, sep: char)
    requires |fields| >= 1
    requires forall i :: 0 <= i < |fields| ==> sep !in fields[i]
    ensures Split(Join(fields, sep), sep) == fields
    decreases |fields|
  {
    if |fields| > 1 {
      var rest := fields[1..];
      assert Join(fields, sep) == fields[0] + [sep] + Join(rest, sep);
      assert forall i :: 0 <= i < |rest| ==> sep !in rest[i] by {
        forall i | 0 <= i < |rest| ensures sep !in rest[i] {
          assert rest[i] == fields[i + 1];
        }
      }
      FirstField(fields[0], sep, Join(rest, sep));
      SplitJoin(rest, sep);
      assert [fields[0]] + rest == fields;
    }
  }

  // ---------------------------------------------------------------------------
  // Entries and the section dictionary

  /** One entry: its '='-separated fields when it has at least two, the
      first and second trimmed as key and value; otherwise nothing. */
  function ParseEntry(entry: string): Option<(string, string)>
  {
    var fields := Split(entry, '=');
    if |fields| >= 2 then Some((Trim(fields[0]), Trim(fields[1]))) else None
  }

  /** The entries of the decoded section: the text without its leading and
      trailing NULs, split at every NUL. */
  function Entries(sectionData: string): seq<string>
  {
    Split(TrimBy(sectionData, IsNul), NUL)
  }

  /** The dictionary after the entries in turn: a parsed entry sets its key,
      overwriting any earlier value. */
  function Collect(entries: seq<string>): map<string, string>
  {
    if entries == [] then map[]
    else
      var acc := Collect(entries[..|entries| - 1]);
      match ParseEntry(entries[|entries| - 1])
      case None => acc
      case Some(kv) => acc[kv.0 := kv.1]
  }

  function Section(sectionData: string): map<string, string>
  {
    Collect(Entries(sectionData))
  }

  /** GetSection once the buffer is read and decoded: builds the dictionary
      entry by entry. */
  method GetSection(sectionData: string) returns (keyValuePairs: map<string, string>)
    ensures keyValuePairs == Section(sectionData)
  {
    keyValuePairs := map[];
    var keyValueArray := Split(TrimBy(sectionData, IsNul), NUL);
    var i := 0;
    while i < |keyValueArray|
      invariant 0 <= i <= |keyValueArray|
      invariant keyValuePairs == Collect(keyValueArray[..i])
    {
      var keyValue := Split(keyValueArray[i], '=');
      assert keyValueArray[..i + 1][..i] == keyValueArray[..i];
      if |keyValue| >= 2 {
        var key := Trim(keyValue[0]);
        var value := Trim(keyValue[1]);
        keyValuePairs := keyValuePairs[key := value];
      }
      i := i + 1;
    }
    assert keyValueArray[..i] == keyValueArray;
  }

  /** Every key and every value of the dictionary is whitespace-trimmed. */
  lemma {:induction false} SectionTrimmed(entries: seq<string>)
    ensures forall k :: k in Collect(entries) ==>
              Trimmed(k, IsWhiteSpace) && Trimmed(Collect(entries)[k], IsWhiteSpace)
  {
    if entries != [] {
      SectionTrimmed(entries[..|entries| - 1]);
      var fields := Split(entries[|entries| - 1], '=');
      if |fields| >= 2 {
        TrimByTrimmed(fields[0], IsWhiteSpace);
        TrimByTrimmed(fields[1], IsWhiteSpace);
      }
    }
  }

  /** The entry parses and sets key k. */
  predicate SetsKey(entry: string, k: string)
  {
    ParseEntry(entry).Some? && ParseEntry(entry).value.0 == k
  }

  /** An entry sets key k exactly when it holds an '=' and the trimmed text
      before its first '=' is k; entries without '=' (empty ones between
      NULs included) set nothing. */
  lemma SetsKeyMeaning(entry: string, k: string)
    ensures SetsKey(entry, k) <==> '=' in entry && Trim(Split(entry, '=')[0]) == k
  {
    SplitCount(entry, '=');
  }

  /** The dictionary's keys are exactly the keys the entries set. */
  lemma {:induction false} SectionKeys(entries: seq<string>, k: string)
    ensures k in Collect(entries) <==> exists i :: 0 <= i < |entries| && SetsKey(entries[i], k)
  {
    if entries != [] {
      SectionKeys(entries[..|entries| - 1], k);
      Lists.ExistsSplitLast(entries, (e: string) => SetsKey(e, k));
    }
  }

  /** When a key repeats, the value of its last entry wins. */
  lemma {:induction false} LastEntryWins(entries: seq<string>, i: nat, k: string, v: string)
    requires i < |entries| && ParseEntry(entries[i]) == Some((k, v))
    requires forall j :: i < j < |entries| ==> !SetsKey(entries[j], k)
    ensures k in Collect(entries) && Collect(entries)[k] == v
  {
    var init := entries[..|entries| - 1];
    if i < |entries| - 1 {
      assert !SetsKey(entries[|entries| - 1], k);
      assert init[i] == entries[i];
      LastEntryWins(init, i, k, v);
    }
  }

  /** The first field of a text that starts with a separator-free a,
      followed by nothing or by a separator. */
  lemma LeadingField(a: string, rest: string, sep: char)
    requires sep !in a
    requires rest == [] || rest[0] == sep
    ensures Split(a + rest, sep)[0] == a
  {
    if rest == [] {
      assert a + rest == a;
    } else {
      assert a + rest == a + [sep] + rest[1..];
      FirstField(a, sep, rest[1..]);
    }
  }

  /** The value is only the text between the first and the second '=':
      whatever follows a second '=' is lost. */
  lemma ValueStopsAtSecondEquals(key: string, value: string, rest: string)
    requires '=' !in key && '=' !in value
    requires rest == [] || rest[0] == '='
    ensures ParseEntry(key + "=" + value + rest) == Some((Trim(key), Trim(value)))
  {
    var entry := key + "=" + value + rest;
    assert entry == key + ['='] + (value + rest);
    FirstField(key, '=', value + rest);
    LeadingField(value, rest, '=');
    assert Split(entry, '=')[1] == Split(value + rest, '=')[0];
  }

  // ---------------------------------------------------------------------------
  // Round trip with the writer

  /** A pair the settings writer can store and read back unchanged: no '='
      or NUL in key or value, and nothing to trim at their ends. */
  predicate Storable(p: (string, string))
  {
    '=' !in p.0 && '=' !in p.1 && NUL !in p.0 && NUL !in p.1
    && Trimmed(p.0, IsWhiteSpace) && Trimmed(p.1, IsWhiteSpace)
  }

  function EntryText(p: (string, string)): string
  {
    p.0 + "=" + p.1
  }

  function EntryTexts(pairs: seq<(string, string)>): seq<string>
  {
    seq(|pairs|, i requires 0 <= i < |pairs| => EntryText(pairs[i]))
  }

  /** The section as the settings file returns it: `key=value` entries
      separated by NULs, followed by the NUL padding of the buffer. */
  function Serialized(pairs: seq<(string, string)>, padding: nat): string
  {
    (if pairs == [] then [] else Join(EntryTexts(pairs), NUL)) + seq(padding, _ => NUL)
  }

  lemma {:induction false} JoinNonEmptyLast(fields: seq<string>, sep: char)
    requires |fields| >= 1 && fields[|fields| - 1] != []
    ensures var s := Join(fields, sep);
            s != [] && s[|s| - 1] == fields[|fields| - 1][|fields[|fields| - 1]| - 1]
    decreases |fields|
  {
    if |fields| > 1 {
      JoinNonEmptyLast(fields[1..], sep);
    }
  }

  /** A stored pair's entry parses back to the pair. */
  lemma ParseStored(p: (string, string))
    requires Storable(p)
    ensures ParseEntry(EntryText(p)) == Some(p)
  {
    var (k, v) := p;
    ValueStopsAtSecondEquals(k, v, []);
    assert k + "=" + v + [] == EntryText(p);
    TrimOfTrimmed(k, IsWhiteSpace);
    TrimOfTrimmed(v, IsWhiteSpace);
  }

  /** A stored entry is non-empty, holds no NUL and so has none to trim. */
  lemma StoredEntry(p: (string, string))
    requires Storable(p)
    ensures var e := EntryText(p); e != [] && NUL !in e && !IsNul(e[0]) && !IsNul(e[|e| - 1])
  {
    var e := EntryText(p);
    assert e == p.0 + ['='] + p.1;
    assert e[|p.0|] == '=';
    if p.0 != [] { assert e[0] == p.0[0]; }
    if p.1 != [] { assert e[|e| - 1] == p.1[|p.1| - 1]; }
  }

  /** The stored entries joined with NULs have no NUL at either end. */
  lemma JoinedTrimmed(pairs: seq<(string, string)>)
    requires |pairs| >= 1
    requires forall i :: 0 <= i < |pairs| ==> Storable(pairs[i])
    ensures Trimmed(Join(EntryTexts(pairs), NUL), IsNul)
  {
    var entries := EntryTexts(pairs);
    var body := Join(entries, NUL);
    StoredEntry(pairs[0]);
    StoredEntry(pairs[|pairs| - 1]);
    JoinNonEmptyLast(entries, NUL);
    assert body[0] == entries[0][0] by {
      if |entries| > 1 {
        assert body == entries[0] + [NUL] + Join(entries[1..], NUL);
      }
    }
  }

  /** The entries read back are the stored ones (a single empty entry when
      nothing was stored). */
  lemma EntriesOfSerialized(pairs: seq<(string, string)>, padding: nat)
    requires forall i :: 0 <= i < |pairs| ==> Storable(pairs[i])
    ensures Entries(Serialized(pairs, padding)) == if pairs == [] then [[]] else EntryTexts(pairs)
  {
    var pad := seq(padding, _ => NUL);
    if pairs == [] {
      TrimPadded([], [], pad, IsNul);
      assert [] + [] + pad == Serialized(pairs, padding);
    } else {
      var entries := EntryTexts(pairs);
      var body := Join(entries, NUL);
      JoinedTrimmed(pairs);
      TrimPadded([], body, pad, IsNul);
      assert [] + body + pad == Serialized(pairs, padding);
      forall i | 0 <= i < |entries| ensures NUL !in entries[i] {
        StoredEntry(pairs[i]);
      }
      SplitJoin(entries, NUL);
    }
  }

  /** Reading back what the writer stored gives exactly the stored pairs. */
  lemma RoundTrip(pairs: seq<(string, string)>, padding: nat)
    requires forall i :: 0 <= i < |pairs| ==> Storable(pairs[i])
    requires forall i, j :: 0 <= i < j < |pairs| ==> pairs[i].0 != pairs[j].0
    ensures var r := Section(Serialized(pairs, padding));
            && (forall i :: 0 <= i < |pairs| ==> pairs[i].0 in r && r[pairs[i].0] == pairs[i].1)
            && (forall k :: k in r ==> exists i :: 0 <= i < |pairs| && pairs[i].0 == k)
  {
    EntriesOfSerialized(pairs, padding);
    if pairs == [] {
      var one: seq<string> := [[]];
      assert one[..0] == [];
      assert Collect(one) == map[];
    } else {
      var entries := EntryTexts(pairs);
      forall i | 0 <= i < |entries| ensures ParseEntry(entries[i]) == Some(pairs[i]) {
        ParseStored(pairs[i]);
      }
      forall i | 0 <= i < |pairs|
        ensures pairs[i].0 in Collect(entries) && Collect(entries)[pairs[i].0] == pairs[i].1
      {
        LastEntryWins(entries, i, pairs[i].0, pairs[i].1);
      }
      forall k | k in Collect(entries) ensures exists i :: 0 <= i < |pairs| && pairs[i].0 == k {
        SectionKeys(entries, k);
        var i :| 0 <= i < |entries| && SetsKey(entries[i], k);
        assert ParseEntry(entries[i]) == Some(pairs[i]);
      }
    }
  }
}
