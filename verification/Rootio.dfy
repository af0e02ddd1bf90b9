/** The rootio name codec: prefixing an upstream package name and stripping the prefix again. */
module Rootio {

  datatype PkgType = Npm | Python | Java | Apk | Deb | OtherType

  function TrimPrefix(s: string, prefix: string): (t: string) {
    if prefix <= s then s[|prefix|..] else s
  }

  predicate OccursAt(s: string, sub: string, i: nat) {
    i <= |s| && sub <= s[i..]
  }

  /** strings.Index: the first occurrence, or -1. */
  function Index(s: string, sub: string): (k: int)
    ensures k == -1 || (0 <= k && OccursAt(s, sub, k))
    ensures forall i: nat :: i < (if k == -1 then |s| + 1 else k) ==> !OccursAt(s, sub, i)
  {
    if sub <= s then assert s[0..] == s; 0
    else if s == "" then -1
    else
      var k := Index(s[1..], sub);
      assert forall i: nat :: 0 < i <= |s| ==> s[i..] == s[1..][i - 1..];
      assert s[0..] == s;
      assert forall i: nat :: 0 < i ==> (OccursAt(s, sub, i) <==> OccursAt(s[1..], sub, i - 1));
      if k == -1 then -1 else k + 1
  }

  function StripPrefix(name: string, t: PkgType): (r: string) {
    match t
    case Npm =>
      if "@rootio/" <= name then
        var bare := TrimPrefix(name, "@rootio/");
        var idx := Index(bare, "__");
        if idx > 0 then "@" + (bare[..idx] + "/" + bare[idx + 2..]) else bare
      else TrimPrefix(name, "rootio-")
    case Python => TrimPrefix(TrimPrefix(name, "rootio-"), "rootio_")
    case Java => TrimPrefix(name, "io.root.")
    case _ => TrimPrefix(name, "rootio-")
  }

  function AddPrefix(name: string, t: PkgType): (r: string) {
    if name == "" then ""
    else match t
      case Npm =>
        if "@rootio/" <= name then name
        else if "@" <= name then
          var rest := TrimPrefix(name, "@");
          var slash := Index(rest, "/");
          if slash <= 0 then "" else "@rootio/" + (rest[..slash] + "__" + rest[slash + 1..])
        else "@rootio/" + name
      case Python => if "rootio-" <= name || "rootio_" <= name then name else "rootio-" + name
      case Java => if "io.root." <= name then name else "io.root." + name
      case _ => if "rootio-" <= name then name else "rootio-" + name
  }

  predicate HasPrefix(name: string, t: PkgType, javaGroupID: string) {
    match t
    case Npm => "@rootio/" <= name || "rootio-" <= name
    case Python => "rootio_" <= name || "rootio-" <= name
    case Java => "io.root." <= javaGroupID || "io.root." <= name
    case _ => "rootio-" <= name
  }

  /** Every prefixed name is recognised as a rootio name. */
  lemma PrefixedIsRecognised(name: string, t: PkgType, javaGroupID: string)
    ensures AddPrefix(name, t) != "" ==> HasPrefix(AddPrefix(name, t), t, javaGroupID)
  {
    if t == Npm && "@" <= name && !("@rootio/" <= name) {
      var rest := TrimPrefix(name, "@");
      var slash := Index(rest, "/");
      if slash > 0 {
        assert AddPrefix(name, t)[..8] == "@rootio/";
      }
    }
  }

  /** The prefixes themselves, for names that have none yet. */
  lemma PrefixesAre(name: string, t: PkgType)
    requires name != ""
    ensures t == Npm && name[0] != '@' ==> AddPrefix(name, t) == "@rootio/" + name
    ensures t == Python && !HasPrefix(name, t, "") ==> AddPrefix(name, t) == "rootio-" + name
    ensures t == Java && !HasPrefix(name, t, "") ==> AddPrefix(name, t) == "io.root." + name
    ensures t in [Apk, Deb, OtherType] && !HasPrefix(name, t, "") ==> AddPrefix(name, t) == "rootio-" + name
  {
  }

  /** The second spellings of the prefix are stripped as well, and a name without a prefix stays as it is. */
  lemma OtherSpellingsAreStripped(name: string, t: PkgType)
    ensures !HasPrefix(name, t, "") ==> StripPrefix(name, t) == name
    ensures StripPrefix("rootio_" + name, Python) == name
    ensures StripPrefix("rootio-" + name, Npm) == name
  {
    assert ("rootio_" + name)[6] == '_' && ("rootio-" + name)[0] == 'r';
    assert ("rootio_" + name)[7..] == name && ("rootio-" + name)[7..] == name;
  }

  /**
   Only prefixed names are recognised: outside npm a non-empty name is recognised exactly when
   prefixing leaves it alone, in npm exactly when it starts with one of the two prefixes. A Java
   group id alone is enough.
   */
  lemma OnlyPrefixedAreRecognised(name: string, t: PkgType, javaGroupID: string)
    requires name != ""
    ensures t != Npm ==> (HasPrefix(name, t, "") <==> AddPrefix(name, t) == name)
    ensures t == Npm ==> (HasPrefix(name, t, javaGroupID) <==> "@rootio/" <= name || "rootio-" <= name)
    ensures t == Java ==> (HasPrefix(name, t, javaGroupID) <==> HasPrefix(name, t, "") || "io.root." <= javaGroupID)
    ensures t != Java ==> (HasPrefix(name, t, javaGroupID) <==> HasPrefix(name, t, ""))
  {
    assert |AddPrefix(name, t)| != |name| || t == Npm || AddPrefix(name, t) == name;
  }

  // ----- the round trip

  /** Nothing in an npm scope can be taken for the encoded slash. */
  predicate PlainScope(scope: string) {
    Index(scope, "__") == -1 && (scope != "" ==> scope[|scope| - 1] != '_')
  }

  /** The names that come back unchanged. */
  predicate ComesBack(name: string, t: PkgType) {
    name == "" ||
    match t
    case Npm =>
      if "@rootio/" <= name then false
      else if "@" <= name then
        var slash := Index(name[1..], "/");
        slash > 0 && PlainScope(name[1..][..slash])
      else Index(name, "__") <= 0
    case Python => !("rootio-" <= name) && !("rootio_" <= name)
    case Java => !("io.root." <= name)
    case _ => !("rootio-" <= name)
  }

  lemma TwoUnderscores(s: string, i: nat)
    ensures OccursAt(s, "__", i) <==> i + 2 <= |s| && s[i] == '_' && s[i + 1] == '_'
  {
    if i + 2 <= |s| {
      assert s[i..][..2] == [s[i], s[i + 1]];
    }
  }

  /** In scope__rest the first double underscore is the encoded slash exactly for a plain scope. */
  lemma FirstSeparator(scope: string, rest: string)
    ensures Index(scope + "__" + rest, "__") == |scope| <==> PlainScope(scope)
    ensures 0 <= Index(scope + "__" + rest, "__") <= |scope|
  {
    var s := scope + "__" + rest;
    TwoUnderscores(s, |scope|);
    var k := Index(s, "__");
    assert 0 <= k <= |scope|;
    forall i: nat ensures OccursAt(scope, "__", i) <==> i + 2 <= |scope| && s[i] == '_' && s[i + 1] == '_' {
      TwoUnderscores(scope, i);
    }
    TwoUnderscores(s, k);
    if k < |scope| {
      if k == |scope| - 1 {
        assert scope[k] == '_';
      } else {
        assert OccursAt(scope, "__", k);
      }
    } else {
      forall i: nat | i < |scope| ensures !OccursAt(scope, "__", i) {
        TwoUnderscores(s, i);
      }
      if scope != "" { TwoUnderscores(s, |scope| - 1); }
    }
  }

  lemma OneCharacter(s: string, c: char, i: nat)
    ensures OccursAt(s, [c], i) <==> i < |s| && s[i] == c
  {
    if i < |s| { assert s[i..][0] == s[i]; }
  }

  /** A scoped npm name comes back exactly when its scope is plain. */
  lemma ScopedRoundTrip(scope: string, rest: string)
    requires scope != "" && '/' !in scope
    ensures var bare := scope + "__" + rest;
            var k := Index(bare, "__");
            0 < k || (k == 0 && !PlainScope(scope))
    ensures var bare := scope + "__" + rest;
            var k := Index(bare, "__");
            k > 0 ==> ("@" + (bare[..k] + "/" + bare[k + 2..]) == "@" + (scope + "/" + rest) <==> PlainScope(scope))
  {
    var bare := scope + "__" + rest;
    FirstSeparator(scope, rest);
    var k := Index(bare, "__");
    if k == |scope| {
      assert bare[..k] == scope && bare[k + 2..] == rest;
    } else if k > 0 {
      var back, name := "@" + (bare[..k] + "/" + bare[k + 2..]), "@" + (scope + "/" + rest);
      assert back[k + 1] == '/' && name[k + 1] == scope[k];
    }
  }

  /** What stripping makes of an encoded scoped name. */
  lemma StripScoped(scope: string, rest: string)
    requires scope != "" && '/' !in scope
    ensures StripPrefix("@rootio/" + (scope + "__" + rest), Npm) == "@" + (scope + "/" + rest) <==> PlainScope(scope)
  {
    var bare := scope + "__" + rest;
    assert TrimPrefix("@rootio/" + bare, "@rootio/") == bare;
    ScopedRoundTrip(scope, rest);
    if Index(bare, "__") == 0 {
      TwoUnderscores(bare, 0);
      assert bare[0] == '_' && ("@" + (scope + "/" + rest))[0] == '@';
    }
  }

  lemma SlashSplits(rest: string)
    requires Index(rest, "/") > 0
    ensures var k := Index(rest, "/"); '/' !in rest[..k] && rest == rest[..k] + "/" + rest[k + 1..]
  {
    var k := Index(rest, "/");
    OneCharacter(rest, '/', k);
    forall i | 0 <= i < k ensures rest[..k][i] != '/' {
      OneCharacter(rest, '/', i);
    }
  }

  lemma ScopedNpm(name: string)
    requires "@" <= name && !("@rootio/" <= name)
    ensures StripPrefix(AddPrefix(name, Npm), Npm) == name <==> ComesBack(name, Npm)
  {
    var rest := name[1..];
    assert TrimPrefix(name, "@") == rest && name == "@" + rest;
    var k := Index(rest, "/");
    if k > 0 {
      SlashSplits(rest);
      var scope, tail := rest[..k], rest[k + 1..];
      StripScoped(scope, tail);
      assert name == "@" + (scope + "/" + tail);
      assert AddPrefix(name, Npm) == "@rootio/" + (scope + "__" + tail);
    }
  }

  lemma UnscopedNpm(name: string)
    requires name != "" && !("@" <= name)
    ensures StripPrefix(AddPrefix(name, Npm), Npm) == name <==> ComesBack(name, Npm)
  {
    var coded := AddPrefix(name, Npm);
    assert !("@rootio/" <= name);
    assert TrimPrefix(coded, "@rootio/") == name;
    var k := Index(name, "__");
    if k > 0 {
      assert ("@" + (name[..k] + "/" + name[k + 2..]))[0] == '@';
      assert name[0] != '@';
    }
  }

  /** Stripping the added prefix gives the name back exactly for the names that ComesBack lists. */
  lemma RoundTrip(name: string, t: PkgType)
    ensures StripPrefix(AddPrefix(name, t), t) == name <==> ComesBack(name, t)
  {
    if name != "" {
      match t
      case Npm =>
        if "@rootio/" <= name {
          assert |StripPrefix(name, Npm)| < |name|;
        } else if "@" <= name {
          ScopedNpm(name);
        } else {
          UnscopedNpm(name);
        }
      case Python =>
        assert ("rootio-" + name)[7..] == name;
      case Java =>
        assert ("io.root." + name)[8..] == name;
      case _ =>
        assert ("rootio-" + name)[7..] == name;
    }
  }

  /** An unscoped npm name that does not come back. */
  lemma UnscopedIsLost() returns (name: string)
    ensures name == "a__b" && StripPrefix(AddPrefix(name, Npm), Npm) != name
  {
    name := "a__b";
    TwoUnderscores(name, 0);
    TwoUnderscores(name, 1);
    RoundTrip(name, Npm);
  }

  /** The scope of a scoped npm name ends at the first slash. */
  lemma ScopeEnds(rest: string, k: nat)
    requires k < |rest| && rest[k] == '/' && '/' !in rest[..k]
    ensures Index(rest, "/") == k
  {
    OneCharacter(rest, '/', k);
    forall i: nat | i < k ensures !OccursAt(rest, "/", i) {
      OneCharacter(rest, '/', i);
      assert rest[i] == rest[..k][i];
    }
  }

  /** A scoped npm name that does not come back. */
  lemma ScopedIsLost() returns (name: string)
    ensures name == "@my__org/x" && StripPrefix(AddPrefix(name, Npm), Npm) != name
  {
    name := "@my__org/x";
    var rest := name[1..];
    ScopeEnds(rest, 7);
    TwoUnderscores(rest[..7], 2);
    RoundTrip(name, Npm);
  }

  /** So two names that come back never share a prefixed name. */
  lemma PrefixedNamesDiffer(a: string, b: string, t: PkgType)
    requires ComesBack(a, t) && ComesBack(b, t) && a != b
    ensures AddPrefix(a, t) != AddPrefix(b, t)
  {
    RoundTrip(a, t);
    RoundTrip(b, t);
  }
}
