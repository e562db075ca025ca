/** The name sanitizer `org_collection_name`: a human organization name becomes the
    name of that organization's storage partition. Character classes follow Python's
    `str.isspace`, `str.isalnum` and `str.lower` on the ASCII range. */
module Sanitizer {

  /** The namespace tag every partition name starts with. */
  const Prefix := "org_"

  /** ASCII whitespace as Python's `str.isspace` sees it: tab, line feed, vertical tab,
      form feed, carriage return, the four separators 0x1C-0x1F, and space. */
  predicate IsSpace(c: char)
  {
    9 <= c as int <= 13 || 28 <= c as int <= 32
  }

  /** ASCII letters and digits (`str.isalnum`). */
  predicate IsAlnum(c: char)
  {
    'a' <= c <= 'z' || 'A' <= c <= 'Z' || '0' <= c <= '9'
  }

  /** The characters a partition name may contain after the prefix. */
  predicate IsPartitionChar(c: char)
  {
    'a' <= c <= 'z' || '0' <= c <= '9' || c == '_'
  }

  /** ASCII `str.lower`. */
  function Lower(c: char): (r: char)
    ensures !('A' <= r <= 'Z')
    ensures 'A' <= c <= 'Z' ==> r as int == c as int + 32
    ensures IsAlnum(r) <==> IsAlnum(c)
    ensures !('A' <= c <= 'Z') ==> r == c
  {
    if 'A' <= c <= 'Z' then (c as int + 32) as char else c
  }

  /** Drops leading whitespace (the left half of `str.strip`); characterised by
      `SanitizerProperties.TrimStartSpec`. */
  function TrimStart(s: string): string
  {
    if |s| > 0 && IsSpace(s[0]) then TrimStart(s[1..]) else s
  }

  /** Drops trailing whitespace (the right half of `str.strip`); characterised by
      `SanitizerProperties.TrimEndSpec`. */
  function TrimEnd(s: string): string
  {
    if |s| > 0 && IsSpace(s[|s| - 1]) then TrimEnd(s[..|s| - 1]) else s
  }

  /** Python's `str.strip()` with no argument; characterised by
      `SanitizerProperties.StripSpec`. */
  function Strip(s: string): string
  {
    TrimEnd(TrimStart(s))
  }

  /** The per-character map: an alphanumeric character is lower-cased, any other
      character becomes one underscore. */
  function SanitizeChar(c: char): (r: char)
    ensures IsPartitionChar(r)
    ensures r == '_' <==> !IsAlnum(c)
    ensures IsAlnum(c) ==> r == Lower(c)
  {
    if IsAlnum(c) then Lower(c) else '_'
  }

  /** The generator expression joined into a string: one output character per input
      character, so runs of punctuation are not collapsed. */
  function SanitizeChars(t: string): (r: string)
    ensures |r| == |t|
    ensures forall i :: 0 <= i < |t| ==> r[i] == SanitizeChar(t[i])
  {
    if t == [] then [] else [SanitizeChar(t[0])] + SanitizeChars(t[1..])
  }

  /** `org_collection_name`: strip, map each character, prefix with `org_`. Its shape
      is stated by `SanitizerProperties.CollectionNameShape`. */
  function OrgCollectionName(name: string): string
  {
    Prefix + SanitizeChars(Strip(name))
  }
}

/** Properties of the sanitizer, stated over `Sanitizer`'s definitions. */
module SanitizerProperties {
  import opened Sanitizer

  /** `TrimStart` removes exactly the whitespace at the front: what is left is a
      suffix of the input, everything removed is whitespace, and what is left does
      not start with whitespace. */
  lemma {:induction false} TrimStartSpec(s: string)
    ensures |TrimStart(s)| <= |s| && TrimStart(s) == s[|s| - |TrimStart(s)|..]
    ensures forall k :: 0 <= k < |s| - |TrimStart(s)| ==> IsSpace(s[k])
    ensures TrimStart(s) == [] || !IsSpace(TrimStart(s)[0])
  {
    if |s| > 0 && IsSpace(s[0]) {
      TrimStartSpec(s[1..]);
    }
  }

  /** `TrimEnd` removes exactly the whitespace at the back. */
  lemma {:induction false} TrimEndSpec(s: string)
    ensures |TrimEnd(s)| <= |s| && TrimEnd(s) == s[..|TrimEnd(s)|]
    ensures forall k :: |TrimEnd(s)| <= k < |s| ==> IsSpace(s[k])
    ensures TrimEnd(s) == [] || !IsSpace(TrimEnd(s)[|TrimEnd(s)| - 1])
  {
    if |s| > 0 && IsSpace(s[|s| - 1]) {
      TrimEndSpec(s[..|s| - 1]);
      assert s[..|s| - 1][..|TrimEnd(s)|] == s[..|TrimEnd(s)|];
    }
  }

  /** `Strip` keeps a contiguous middle part of its input, removes only whitespace on
      either side of it, and leaves no whitespace at either end. */
  lemma StripSpec(s: string)
    ensures |Strip(s)| <= |TrimStart(s)| <= |s|
    ensures Strip(s) == [] || (!IsSpace(Strip(s)[0]) && !IsSpace(Strip(s)[|Strip(s)| - 1]))
    ensures var lead := |s| - |TrimStart(s)|;
      lead + |Strip(s)| <= |s| && Strip(s) == s[lead..lead + |Strip(s)|] &&
      (forall k :: 0 <= k < lead ==> IsSpace(s[k])) &&
      (forall k :: lead + |Strip(s)| <= k < |s| ==> IsSpace(s[k]))
  {
    var t := TrimStart(s);
    TrimStartSpec(s);
    TrimEndSpec(t);
    var lead := |s| - |t|;
    var r := Strip(s);
    assert r == t[..|r|];
    assert t == s[lead..];
    assert r == s[lead..lead + |r|];
    if r != [] && |r| < |t| {
      assert r[0] == t[0];
    }
    forall k | lead + |r| <= k < |s|
      ensures IsSpace(s[k])
    {
      assert s[k] == t[k - lead];
    }
  }

  /** The partition name is the prefix followed by one character per character of the
      stripped name: that character lower-cased when it is a letter or digit, an
      underscore otherwise. */
  lemma CollectionNameShape(name: string)
    ensures |OrgCollectionName(name)| == |Prefix| + |Strip(name)|
    ensures OrgCollectionName(name)[..|Prefix|] == Prefix
    ensures forall i :: 0 <= i < |Strip(name)| ==>
              OrgCollectionName(name)[|Prefix| + i] == SanitizeChar(Strip(name)[i])
  {
  }

  /** Stripping a string that has no surrounding whitespace leaves it as it is. */
  lemma StripUnpadded(s: string)
    requires s == [] || (!IsSpace(s[0]) && !IsSpace(s[|s| - 1]))
    ensures Strip(s) == s
  {
    assert TrimStart(s) == s;
    assert TrimEnd(s) == s;
  }

  /** `str.strip` is idempotent. */
  lemma StripIdempotent(s: string)
    ensures Strip(Strip(s)) == Strip(s)
  {
    StripSpec(s);
    StripUnpadded(Strip(s));
  }

  /** Surrounding whitespace never reaches the partition name: a name and its
      stripped form share one partition. */
  lemma CollectionNameIgnoresPadding(name: string)
    ensures OrgCollectionName(Strip(name)) == OrgCollectionName(name)
  {
    StripIdempotent(name);
  }

  /** Every partition name is the prefix followed only by lower-case letters, digits
      and underscores. */
  lemma CollectionNameCharset(name: string)
    ensures forall i :: |Prefix| <= i < |OrgCollectionName(name)| ==> IsPartitionChar(OrgCollectionName(name)[i])
  {
    var r := OrgCollectionName(name);
    CollectionNameShape(name);
    forall i | |Prefix| <= i < |r|
      ensures IsPartitionChar(r[i])
    {
      assert r[|Prefix| + (i - |Prefix|)] == SanitizeChar(Strip(name)[i - |Prefix|]);
    }
  }

  /** A partition name never coincides with one of the registry's own collections
      (`organizations`, `admins`) in the same database. */
  lemma CollectionNameNotRegistry(name: string)
    ensures OrgCollectionName(name) != "organizations"
    ensures OrgCollectionName(name) != "admins"
  {
    var r := OrgCollectionName(name);
    CollectionNameShape(name);
    assert r[..4] == "org_";
    assert "organizations"[..4] == "orga";
    assert |"admins"| >= 4 && "admins"[..4] == "admi";
  }

  /** For a name whose stripped form already uses only partition characters, the
      partition name is the prefix plus that stripped form: on such names the
      sanitizer is injective. */
  lemma {:induction false} CanonicalNameKept(name: string)
    requires forall i :: 0 <= i < |Strip(name)| ==> IsPartitionChar(Strip(name)[i])
    ensures OrgCollectionName(name) == Prefix + Strip(name)
  {
    var t := Strip(name);
    forall i | 0 <= i < |t|
      ensures SanitizeChars(t)[i] == t[i]
    {
      assert IsPartitionChar(t[i]);
    }
    assert SanitizeChars(t) == t;
  }

  /** Distinct names can share a partition: "A B" and "A_B" both map to "org_a_b". */
  lemma NamesCollide()
    ensures "A B" != "A_B"
    ensures OrgCollectionName("A B") == OrgCollectionName("A_B") == "org_a_b"
  {
    assert "A B"[0] == 'A';
    assert Strip("A B") == "A B" by { StripUnpadded("A B"); }
    assert Strip("A_B") == "A_B" by { StripUnpadded("A_B"); }
    assert SanitizeChars("A B") == "a_b";
    assert SanitizeChars("A_B") == "a_b";
  }
}
