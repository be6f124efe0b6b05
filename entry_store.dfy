/** The journal's entries: a dictionary from date key to the text saved for
    that day, and the update that saving the editor's text performs on it. */
module EntryStore {
  import opened Calendar
  import opened DateKey

  type Entries = map<string, string>

  /** The ASCII characters String.prototype.trim removes: space, tab, line
      feed, vertical tab, form feed and carriage return. */
  predicate IsSpace(c: char) {
    c == ' ' || c == '\t' || c == '\n' || c == '\r' || c as int == 0x0B || c as int == 0x0C
  }

  predicate AllSpace(s: string) {
    forall i :: 0 <= i < |s| ==> IsSpace(s[i])
  }

  /** The first position at or after k that does not hold white space, or
      |s| when there is none. */
  function SkipSpace(s: string, k: nat): (n: nat)
    requires k <= |s|
    ensures k <= n <= |s|
    ensures forall i :: k <= i < n ==> IsSpace(s[i])
    ensures n == |s| || !IsSpace(s[n])
    decreases |s| - k
  {
    if k < |s| && IsSpace(s[k]) then SkipSpace(s, k + 1) else k
  }

  /** The position after the last character before k, and not before lo,
      that does not hold white space, or lo when there is none. */
  function BackSpace(s: string, lo: nat, k: nat): (m: nat)
    requires lo <= k <= |s|
    ensures lo <= m <= k
    ensures forall i :: m <= i < k ==> IsSpace(s[i])
    ensures m == lo || !IsSpace(s[m - 1])
    decreases k
  {
    if k > lo && IsSpace(s[k - 1]) then BackSpace(s, lo, k - 1) else k
  }

  /** String.prototype.trim over ASCII white space. */
  function Trim(s: string): string {
    var i := SkipSpace(s, 0);
    s[i..BackSpace(s, i, |s|)]
  }

  /** The trimmed text is a slice of the input with only white space cut off
      either side, and it neither starts nor ends with white space. */
  lemma {:induction false} TrimSlice(s: string)
    ensures exists i, j :: 0 <= i <= j <= |s| && Trim(s) == s[i..j]
                           && AllSpace(s[..i]) && AllSpace(s[j..])
    ensures Trim(s) == [] || (!IsSpace(Trim(s)[0]) && !IsSpace(Trim(s)[|Trim(s)| - 1]))
  {
    var i := SkipSpace(s, 0);
    var j := BackSpace(s, i, |s|);
    assert AllSpace(s[..i]) by {
      forall k | 0 <= k < i ensures IsSpace(s[..i][k]) {
        assert s[..i][k] == s[k];
      }
    }
    assert AllSpace(s[j..]) by {
      forall k | 0 <= k < |s| - j ensures IsSpace(s[j..][k]) {
        assert s[j..][k] == s[j + k];
      }
    }
  }

  /** Trimming empties the text exactly when it is all white space. */
  lemma {:induction false} TrimEmptyIffAllSpace(s: string)
    ensures Trim(s) == [] <==> AllSpace(s)
  {
  }

  /** Trimming twice is trimming once. */
  lemma {:induction false} TrimIdempotent(s: string)
    ensures Trim(Trim(s)) == Trim(s)
  {
    var r := Trim(s);
    TrimSlice(s);
    if r != [] {
      assert SkipSpace(r, 0) == 0;
      assert BackSpace(r, 0, |r|) == |r|;
    }
  }

  /** A key holds an entry when its value is truthy, i.e., a non-empty
      string. */
  predicate Truthy(entries: Entries, key: string) {
    key in entries && entries[key] != ""
  }

  /** The day d has an entry: `entries[formatDateKey(d)]` is truthy. */
  predicate HasEntry(entries: Entries, d: Date) {
    Truthy(entries, Encode(d))
  }

  /** The store holds no empty text. */
  ghost predicate NoEmptyValues(entries: Entries) {
    forall k :: k in entries ==> entries[k] != ""
  }

  /** The store after saveEntry has trimmed the editor's text to `content`:
      non-empty content replaces the value for `key`, empty content deletes
      the key. */
  function Put(entries: Entries, key: string, content: string): (r: Entries)
    ensures key in r <==> content != ""
    ensures key in r ==> r[key] == content
    ensures forall k :: k != key ==> (k in r <==> k in entries)
    ensures forall k :: k != key && k in r ==> r[k] == entries[k]
  {
    if content != "" then entries[key := content] else entries - {key}
  }

  /** The text the editor shows for a key: `entries[dateStr] || ''`. */
  function StoredText(entries: Entries, key: string): (t: string)
    ensures t == "" <==> !Truthy(entries, key)
    ensures Truthy(entries, key) ==> t == entries[key]
  {
    if key in entries then entries[key] else ""
  }

  /** Reading a key right after saving it gives the saved content. */
  lemma {:induction false} StoredTextAfterPut(entries: Entries, key: string, content: string)
    ensures StoredText(Put(entries, key, content), key) == content
    ensures Truthy(Put(entries, key, content), key) <==> content != ""
  {
  }

  /** A second save of the same key overrides the first completely; in
      particular saving the same content twice is the same as saving it once. */
  lemma {:induction false} PutLastWins(entries: Entries, key: string, first: string, second: string)
    ensures Put(Put(entries, key, first), key, second) == Put(entries, key, second)
  {
    if first != "" && second != "" {
      assert entries[key := first][key := second] == entries[key := second];
    } else if first != "" {
      assert entries[key := first] - {key} == entries - {key};
    } else if second != "" {
      assert (entries - {key})[key := second] == entries[key := second];
    } else {
      assert entries - {key} - {key} == entries - {key};
    }
  }

  lemma {:induction false} PutIdempotent(entries: Entries, key: string, content: string)
    ensures Put(Put(entries, key, content), key, content) == Put(entries, key, content)
  {
    PutLastWins(entries, key, content, content);
  }

  /** Saving never stores empty text. */
  lemma {:induction false} PutNoEmptyValues(entries: Entries, key: string, content: string)
    requires NoEmptyValues(entries)
    ensures NoEmptyValues(Put(entries, key, content))
  {
  }

  /** The number of entries goes up by one for new non-empty content, down by
      one for emptied content of an existing key, and otherwise stays. */
  lemma {:induction false} PutCount(entries: Entries, key: string, content: string)
    ensures |Put(entries, key, content)| ==
            if content != "" then (if key in entries then |entries| else |entries| + 1)
            else (if key in entries then |entries| - 1 else |entries|)
  {
    var r := Put(entries, key, content);
    if content != "" {
      assert r.Keys == entries.Keys + {key};
    } else {
      assert r.Keys == entries.Keys - {key};
    }
  }

  /** When the store holds no empty text, the total shown (the number of
      keys) is the number of keys that count as entries. */
  lemma {:induction false} TotalCountsEntries(entries: Entries)
    requires NoEmptyValues(entries)
    ensures |entries| == |set k | k in entries && Truthy(entries, k)|
  {
    assert (set k | k in entries && Truthy(entries, k)) == entries.Keys;
  }
}
