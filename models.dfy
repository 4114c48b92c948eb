/** The named entity the clustering code keys documents by: a surface
    name, normalised when the entity is made, and a label such as "ORG".
    Two entities are the same when their normalised names and labels are.
    The label is held in the field `kind`, since `label` is a Dafny
    keyword. */
module Models {

  /** The characters Python's `str.isspace` accepts: the ASCII controls
      tab to carriage return, the separators U+001C-U+001F, space, and the
      Unicode spaces NEL, NBSP, U+1680, U+2000-U+200A, U+2028, U+2029,
      U+202F, U+205F and U+3000. */
  const Whitespace: set<char> :=
    {'\t', '\n', '\U{000B}', '\U{000C}', '\r',
     '\U{001C}', '\U{001D}', '\U{001E}', '\U{001F}', ' ',
     '\U{0085}', '\U{00A0}', '\U{1680}',
     '\U{2000}', '\U{2001}', '\U{2002}', '\U{2003}', '\U{2004}', '\U{2005}',
     '\U{2006}', '\U{2007}', '\U{2008}', '\U{2009}', '\U{200A}',
     '\U{2028}', '\U{2029}', '\U{202F}', '\U{205F}', '\U{3000}'}

  /** Neither end is one of `chars`. */
  predicate Trimmed(s: string, chars: set<char>) {
    s == [] || (s[0] !in chars && s[|s| - 1] !in chars)
  }

  /** The length of the run of characters in `chars` that `s` starts
      with: everything before it is in `chars`, and the character at it
      (if any) is not. */
  function LeadingRun(s: string, chars: set<char>): (k: nat)
    ensures k <= |s| && (k == |s| || s[k] !in chars)
    ensures forall i :: 0 <= i < k ==> s[i] in chars
  {
    if s != [] && s[0] in chars then
      var k := LeadingRun(s[1..], chars);
      assert forall i :: 1 <= i < k + 1 ==> s[i] == s[1..][i - 1];
      k + 1
    else 0
  }

  /** Where the run of characters in `chars` that `s` ends with begins:
      everything from it on is in `chars`, and the character before it
      (if any) is not. */
  function TrailingEnd(s: string, chars: set<char>): (j: nat)
    ensures j <= |s| && (j == 0 || s[j - 1] !in chars)
    ensures forall i :: j <= i < |s| ==> s[i] in chars
  {
    if s != [] && s[|s| - 1] in chars then
      var init := s[..|s| - 1];
      var j := TrailingEnd(init, chars);
      assert forall i :: j <= i < |init| ==> init[i] == s[i];
      j
    else |s|
  }

  /** Only one count fits the contract of `LeadingRun`. */
  lemma LeadingRunUnique(s: string, chars: set<char>, k: nat)
    requires k <= |s| && (k == |s| || s[k] !in chars)
    requires forall i :: 0 <= i < k ==> s[i] in chars
    ensures LeadingRun(s, chars) == k
  {
  }

  /** Only one index fits the contract of `TrailingEnd`. */
  lemma TrailingEndUnique(s: string, chars: set<char>, j: nat)
    requires j <= |s| && (j == 0 || s[j - 1] !in chars)
    requires forall i :: j <= i < |s| ==> s[i] in chars
    ensures TrailingEnd(s, chars) == j
  {
  }

  /** `str.strip(chars)`: first the leading run of `chars` is cut off,
      then the trailing run of what is left. */
  function Strip(s: string, chars: set<char>): (r: string)
    ensures LeadingRun(s, chars) + |r| <= |s|
    ensures Trimmed(r, chars)
  {
    var k := LeadingRun(s, chars);
    var l := s[k..];
    var j := TrailingEnd(l, chars);
    assert j > 0 ==> l[..j][0] == l[0] == s[k];
    l[..j]
  }

  /** `Strip` keeps the slice of `s` that starts after the leading run
      of `chars`. */
  lemma StripSlice(s: string, chars: set<char>)
    ensures var k := LeadingRun(s, chars);
      && k + |Strip(s, chars)| <= |s|
      && Strip(s, chars) == s[k..k + |Strip(s, chars)|]
      && forall i :: 0 <= i < |Strip(s, chars)| ==> Strip(s, chars)[i] == s[k + i]
  {
    var k := LeadingRun(s, chars);
    var l := s[k..];
    var j := TrailingEnd(l, chars);
    assert Strip(s, chars) == l[..j] == s[k..k + j];
  }

  /** Everything `Strip` cuts off after what it keeps is in `chars`, as
      everything before it is (`LeadingRun`). */
  lemma StripCutsOnlyChars(s: string, chars: set<char>)
    ensures forall i :: LeadingRun(s, chars) + |Strip(s, chars)| <= i < |s| ==> s[i] in chars
  {
    var k := LeadingRun(s, chars);
    var l := s[k..];
    var j := TrailingEnd(l, chars);
    assert |Strip(s, chars)| == j;
    forall i | k + j <= i < |s|
      ensures s[i] in chars
    {
      assert s[i] == l[i - k];
    }
  }

  /** `Strip` returns the one trimmed slice with only `chars` around it:
      any non-empty trimmed `s[i..j]` whose surroundings are all in
      `chars` is what `Strip` returns. */
  lemma StripUnique(s: string, chars: set<char>, i: nat, j: nat)
    requires i < j <= |s| && Trimmed(s[i..j], chars)
    requires forall k :: 0 <= k < i ==> s[k] in chars
    requires forall k :: j <= k < |s| ==> s[k] in chars
    ensures Strip(s, chars) == s[i..j]
  {
    assert s[i] == s[i..j][0] && s[j - 1] == s[i..j][j - i - 1];
    LeadingRunUnique(s, chars, i);
    var l := s[i..];
    assert forall k :: j - i <= k < |l| ==> l[k] == s[k + i];
    TrailingEndUnique(l, chars, j - i);
    assert l[..j - i] == s[i..j];
  }

  /** A trimmed string is left as it is. */
  lemma StripTrimmed(s: string, chars: set<char>)
    requires Trimmed(s, chars)
    ensures Strip(s, chars) == s
  {
    LeadingRunUnique(s, chars, 0);
    TrailingEndUnique(s, chars, |s|);
    assert s[0..] == s;
  }

  predicate IsUpper(c: char) {
    'A' <= c <= 'Z'
  }

  /** No ASCII capital letter. */
  predicate NoUpper(s: string) {
    forall i :: 0 <= i < |s| ==> !IsUpper(s[i])
  }

  /** Lower-cases one ASCII letter, 'A'..'Z' to 'a'..'z'; any other
      character is kept. */
  function LowerChar(c: char): (d: char)
    ensures !IsUpper(d)
    ensures IsUpper(c) ==> d as int == c as int + 32
    ensures !IsUpper(c) ==> d == c
  {
    if IsUpper(c) then (c as int + 32) as char else c
  }

  /** Lower-casing a character neither makes nor removes whitespace: a
      capital and its small letter are both outside `Whitespace`. */
  lemma LowerCharKeepsWhitespace(c: char)
    ensures LowerChar(c) in Whitespace <==> c in Whitespace
  {
  }

  /** `str.lower()` on ASCII letters: same length, each capital replaced
      by its small letter, every other character kept; so no capital is
      left. */
  function ToLower(s: string): (r: string)
    ensures |r| == |s| && NoUpper(r)
    ensures forall i :: 0 <= i < |s| ==>
      && (IsUpper(s[i]) ==> r[i] as int == s[i] as int + 32)
      && (!IsUpper(s[i]) ==> r[i] == s[i])
  {
    seq(|s|, i requires 0 <= i < |s| => LowerChar(s[i]))
  }

  /** Lower-casing leaves whitespace exactly where it was. */
  lemma ToLowerKeepsWhitespace(s: string, i: nat)
    requires i < |s|
    ensures ToLower(s)[i] in Whitespace <==> s[i] in Whitespace
  {
    LowerCharKeepsWhitespace(s[i]);
  }

  /** Lower-casing keeps a trimmed string trimmed. */
  lemma ToLowerTrimmed(s: string)
    requires Trimmed(s, Whitespace)
    ensures Trimmed(ToLower(s), Whitespace)
  {
    if s != [] {
      ToLowerKeepsWhitespace(s, 0);
      ToLowerKeepsWhitespace(s, |s| - 1);
    }
  }

  /** A string without capitals is its own lower-case form. */
  lemma ToLowerOfLower(s: string)
    requires NoUpper(s)
    ensures ToLower(s) == s
  {
  }

  /** The form names are stored in: trimmed and without capitals. */
  predicate Normalized(s: string) {
    Trimmed(s, Whitespace) && NoUpper(s)
  }

  /** `name.strip().lower()`: the slice of `name` that starts after its
      leading whitespace, with each character lower-cased; the result is
      trimmed and has no capital (where the slice ends is given by
      `StripCutsOnlyChars`). */
  function Normalize(name: string): (r: string)
    ensures Normalized(r)
    ensures LeadingRun(name, Whitespace) + |r| <= |name|
    ensures forall i :: 0 <= i < |r| ==> r[i] == LowerChar(name[LeadingRun(name, Whitespace) + i])
  {
    var k := LeadingRun(name, Whitespace);
    var stripped := Strip(name, Whitespace);
    StripSlice(name, Whitespace);
    ToLowerOfSlice(name, k, stripped);
    ToLowerTrimmed(stripped);
    ToLower(stripped)
  }

  /** Lower-casing a slice of `name` that starts at `k` lower-cases the
      characters of `name` from `k` on. */
  lemma ToLowerOfSlice(name: string, k: nat, part: string)
    requires k + |part| <= |name|
    requires forall i :: 0 <= i < |part| ==> part[i] == name[k + i]
    ensures forall i :: 0 <= i < |part| ==> ToLower(part)[i] == LowerChar(name[k + i])
  {
  }

  /** Normalising is idempotent, and a name is left unchanged exactly when
      it is already in normal form. */
  lemma NormalizeIdempotent(name: string)
    ensures Normalize(Normalize(name)) == Normalize(name)
    ensures Normalize(name) == name <==> Normalized(name)
  {
    NormalizeFixed(Normalize(name));
    if Normalized(name) {
      NormalizeFixed(name);
    }
  }

  lemma NormalizeFixed(s: string)
    requires Normalized(s)
    ensures Normalize(s) == s
  {
    StripTrimmed(s, Whitespace);
    ToLowerOfLower(s);
  }

  /** `Entity`: a normalised name and a label. */
  datatype Entity = Entity(name: string, kind: string) {

    /** `__eq__`: same name and same label. */
    predicate Equals(other: Entity) {
      name == other.name && kind == other.kind
    }

    /** The string `__hash__` hashes: `name + "_" + kind`. */
    function HashKey(): (k: string)
      ensures |k| == |name| + 1 + |kind|
      ensures k[..|name|] == name && k[|name|] == '_' && k[|name| + 1..] == kind
    {
      name + "_" + kind
    }

    /** `__repr__`: `name (label)`. */
    function Repr(): (r: string)
      ensures |r| == |name| + |kind| + 3
      ensures r[..|name|] == name && r[|name|..|name| + 2] == " ("
      ensures r[|name| + 2..|r| - 1] == kind && r[|r| - 1] == ')'
    {
      name + " (" + kind + ")"
    }
  }

  /** `Entity(name, label)`: stores the normalised name and the label as
      given. */
  function NewEntity(name: string, kind: string): (e: Entity)
    ensures Normalized(e.name) && e.kind == kind
    ensures e.name == Normalize(name)
  {
    Entity(Normalize(name), kind)
  }

  /** Entity equality is structural equality of the stored fields. */
  lemma EqualsIsIdentity(a: Entity, b: Entity)
    ensures a.Equals(b) <==> a == b
  {
  }

  /** Two entities made from raw names are equal exactly when the names
      normalise alike and the labels match. */
  lemma NewEntityEquals(n1: string, k1: string, n2: string, k2: string)
    ensures NewEntity(n1, k1).Equals(NewEntity(n2, k2)) <==> Normalize(n1) == Normalize(n2) && k1 == k2
  {
  }

  /** Making an entity from a stored entity's fields gives it back. */
  lemma NewEntityIdempotent(name: string, kind: string)
    ensures NewEntity(NewEntity(name, kind).name, kind) == NewEntity(name, kind)
  {
    NormalizeIdempotent(name);
  }

  /** Equality is reflexive, symmetric and transitive. */
  lemma EqualsEquivalence(a: Entity, b: Entity, c: Entity)
    ensures a.Equals(a)
    ensures a.Equals(b) ==> b.Equals(a)
    ensures a.Equals(b) && b.Equals(c) ==> a.Equals(c)
  {
  }

  /** Equal entities hash alike, as Python requires of `__eq__` and
      `__hash__`. */
  lemma EqualsSameHashKey(a: Entity, b: Entity)
    requires a.Equals(b)
    ensures a.HashKey() == b.HashKey()
  {
  }

  /** `strip()` cuts "  Foo " down to "Foo". */
  lemma StripFoo(raw: string)
    requires raw == "  Foo "
    ensures Strip(raw, Whitespace) == "Foo"
  {
    assert ' ' in Whitespace && 'F' !in Whitespace && 'o' !in Whitespace;
    assert raw[2..5] == "Foo";
    StripUnique(raw, Whitespace, 2, 5);
  }

  /** `lower()` turns "Foo" into "foo", which is in normal form. */
  lemma LowerFoo(upper: string, lower: string)
    requires upper == "Foo" && lower == "foo"
    ensures ToLower(upper) == lower && Normalized(lower)
  {
    assert ToLower(upper)[0] == 'f';
  }

  /** "  Foo " normalises to "foo", as does "foo" itself. */
  lemma FooNormalizes(raw: string, lower: string)
    requires raw == "  Foo " && lower == "foo"
    ensures Normalize(raw) == lower && Normalize(lower) == lower
  {
    StripFoo(raw);
    LowerFoo(Strip(raw, Whitespace), lower);
    assert Normalize(raw) == ToLower(Strip(raw, Whitespace));
    NormalizeFixed(lower);
  }

  /** Surrounding spaces and capitals do not tell entities apart; labels
      do. */
  lemma EqualsIgnoresSpaceAndCase(raw: string)
    requires raw == "  Foo "
    ensures NewEntity(raw, "ORG").Equals(NewEntity("foo", "ORG"))
    ensures !NewEntity("foo", "ORG").Equals(NewEntity("foo", "PERSON"))
  {
    FooNormalizes(raw, "foo");
  }

  /** The hashed key does not tell every pair of entities apart: an
      underscore inside a field can move between name and label. This is
      a hash collision, not an equality. */
  lemma HashKeyCollision()
    ensures Entity("a_b", "c").HashKey() == Entity("a", "b_c").HashKey()
    ensures !Entity("a_b", "c").Equals(Entity("a", "b_c"))
  {
  }

  /** The printed form shows the normalised name, then the label in
      brackets. */
  lemma ReprShowsNormalizedName(name: string, kind: string)
    ensures var r := NewEntity(name, kind).Repr();
      r[..|Normalize(name)|] == Normalize(name) && r[|r| - 1] == ')'
  {
  }

  /** The raw name "  Foo " with label "ORG" prints as "foo (ORG)". */
  lemma ReprExample(raw: string)
    requires raw == "  Foo "
    ensures NewEntity(raw, "ORG").Repr() == "foo (ORG)"
  {
    FooNormalizes(raw, "foo");
    PrintedFoo(NewEntity(raw, "ORG"));
  }

  /** The entity ("foo", "ORG") prints as "foo (ORG)". */
  lemma PrintedFoo(e: Entity)
    requires e.name == "foo" && e.kind == "ORG"
    ensures e.Repr() == "foo (ORG)"
  {
  }
}
