/**
  Package identities and their total order.

  A cargo `PackageId` is a `(name, version, source)` triple; its derived `Ord` compares
  the name, then the version, then the source.  Strings are compared code point by code
  point, which is the order Rust's `str` uses (UTF-8 byte order agrees with it).
*/
module PackageIds {

  /** A semantic version without pre-release or build metadata. */
  datatype Version = Version(major: nat, minor: nat, patch: nat)

  datatype PackageId = PackageId(name: string, version: Version, source: string)

  /** Lexicographic strict order on strings. */
  predicate StrLt(a: string, b: string)
  {
    if |a| == 0 then |b| > 0
    else if |b| == 0 then false
    else if a[0] == b[0] then StrLt(a[1..], b[1..])
    else a[0] < b[0]
  }

  predicate VersionLt(a: Version, b: Version)
  {
    || a.major < b.major
    || (a.major == b.major && a.minor < b.minor)
    || (a.major == b.major && a.minor == b.minor && a.patch < b.patch)
  }

  /** The strict total order on package identities. */
  predicate IdLt(a: PackageId, b: PackageId)
  {
    || StrLt(a.name, b.name)
    || (a.name == b.name && VersionLt(a.version, b.version))
    || (a.name == b.name && a.version == b.version && StrLt(a.source, b.source))
  }

  predicate IdLe(a: PackageId, b: PackageId)
  {
    a == b || IdLt(a, b)
  }

  lemma {:induction false} StrLtIrreflexive(a: string)
    ensures !StrLt(a, a)
  {
    if |a| > 0 {
      StrLtIrreflexive(a[1..]);
    }
  }

  lemma {:induction false} StrLtTransitive(a: string, b: string, c: string)
    requires StrLt(a, b) && StrLt(b, c)
    ensures StrLt(a, c)
  {
    if |a| > 0 && |b| > 0 && |c| > 0 && a[0] == b[0] && b[0] == c[0] {
      StrLtTransitive(a[1..], b[1..], c[1..]);
    }
  }

  lemma {:induction false} StrLtTotal(a: string, b: string)
    requires a != b
    ensures StrLt(a, b) || StrLt(b, a)
  {
    if |a| > 0 && |b| > 0 && a[0] == b[0] {
      assert a == [a[0]] + a[1..] && b == [b[0]] + b[1..];
      StrLtTotal(a[1..], b[1..]);
    }
  }

  lemma StrLtAsymmetric(a: string, b: string)
    requires StrLt(a, b)
    ensures !StrLt(b, a)
  {
    if StrLt(b, a) {
      StrLtTransitive(a, b, a);
      StrLtIrreflexive(a);
    }
  }

  /** `IdLt` is irreflexive, transitive and connected: a strict total order. */
  lemma IdLtIrreflexive(a: PackageId)
    ensures !IdLt(a, a)
  {
    StrLtIrreflexive(a.name);
    StrLtIrreflexive(a.source);
  }

  lemma IdLtTransitive(a: PackageId, b: PackageId, c: PackageId)
    requires IdLt(a, b) && IdLt(b, c)
    ensures IdLt(a, c)
  {
    if StrLt(a.name, b.name) && StrLt(b.name, c.name) {
      StrLtTransitive(a.name, b.name, c.name);
    }
    if a.name == b.name && b.name == c.name && a.version == b.version && b.version == c.version {
      StrLtIrreflexive(a.name);
      StrLtTransitive(a.source, b.source, c.source);
    }
  }

  lemma IdLtTotal(a: PackageId, b: PackageId)
    requires a != b
    ensures IdLt(a, b) || IdLt(b, a)
  {
    if a.name != b.name {
      StrLtTotal(a.name, b.name);
    } else if a.version == b.version {
      StrLtTotal(a.source, b.source);
    }
  }

  lemma IdLtAsymmetric(a: PackageId, b: PackageId)
    requires IdLt(a, b)
    ensures !IdLt(b, a)
  {
    if IdLt(b, a) {
      IdLtTransitive(a, b, a);
      IdLtIrreflexive(a);
    }
  }

  lemma IdLeTransitive(a: PackageId, b: PackageId, c: PackageId)
    requires IdLe(a, b) && IdLe(b, c)
    ensures IdLe(a, c)
  {
    if a != b && b != c {
      IdLtTransitive(a, b, c);
    }
  }

  lemma IdLeTotal(a: PackageId, b: PackageId)
    ensures IdLe(a, b) || IdLe(b, a)
  {
    if a != b {
      IdLtTotal(a, b);
    }
  }
}
