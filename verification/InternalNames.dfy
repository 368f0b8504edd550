/** The names of the indexes that a table has from its creation. */
module InternalNames {
  import opened Bytes
  import opened CatalogStates

  function ReservedPrefix(): Bytes {
    Ascii("dandb_")
  }

  predicate HasReservedPrefix(name: Bytes) {
    |name| >= 6 && name[..6] == ReservedPrefix()
  }

  /** std::to_string. */
  function Decimal(n: nat): (s: Bytes)
    ensures s != [] && forall i :: 0 <= i < |s| ==> 48 <= s[i] < 58
  {
    if n < 10 then [48 + n] else Decimal(n / 10) + [48 + n % 10]
  }

  lemma {:induction false} DecimalInjective(m: nat, n: nat)
    requires Decimal(m) == Decimal(n)
    ensures m == n
  {
    var s, t := Decimal(m), Decimal(n);
    assert s[|s| - 1] == 48 + m % 10 && t[|t| - 1] == 48 + n % 10;
    if m >= 10 && n >= 10 {
      assert s[..|s| - 1] == Decimal(m / 10) && t[..|t| - 1] == Decimal(n / 10);
      DecimalInjective(m / 10, n / 10);
    }
  }

  function PrimaryIndexName(table: nat): Bytes {
    Ascii("dandb_internal_pk_") + Decimal(table)
  }

  function UniqueIndexName(table: nat, column: nat): Bytes {
    Ascii("dandb_internal_unique_") + (Decimal(table) + [95] + Decimal(column))
  }

  lemma Reserved(table: nat, column: nat)
    ensures HasReservedPrefix(PrimaryIndexName(table)) && HasReservedPrefix(UniqueIndexName(table, column))
    ensures PrimaryIndexName(table) != [] && UniqueIndexName(table, column) != []
  {
    var p, u := Ascii("dandb_internal_pk_"), Ascii("dandb_internal_unique_");
    assert p[..6] == ReservedPrefix() && u[..6] == ReservedPrefix();
    assert PrimaryIndexName(table)[..6] == p[..6] && UniqueIndexName(table, column)[..6] == u[..6];
  }

  /** Internal names tell tables apart, and the columns of a table, and the two kinds of index. */
  lemma PrimaryNamesApart(s: nat, t: nat)
    requires PrimaryIndexName(s) == PrimaryIndexName(t)
    ensures s == t
  {
    var p := Ascii("dandb_internal_pk_");
    assert PrimaryIndexName(s)[|p|..] == Decimal(s) && PrimaryIndexName(t)[|p|..] == Decimal(t);
    DecimalInjective(s, t);
  }

  lemma KindsApart(s: nat, t: nat, c: nat)
    ensures PrimaryIndexName(s) != UniqueIndexName(t, c)
  {
    var p, u := Ascii("dandb_internal_pk_"), Ascii("dandb_internal_unique_");
    assert PrimaryIndexName(s)[15] == p[15] && UniqueIndexName(t, c)[15] == u[15];
    assert p[15] == 'p' as int && u[15] == 'u' as int;
  }

  lemma UniqueNamesApart(s: nat, b: nat, t: nat, c: nat)
    requires UniqueIndexName(s, b) == UniqueIndexName(t, c)
    ensures s == t && b == c
  {
    var u := Ascii("dandb_internal_unique_");
    assert UniqueIndexName(s, b)[|u|..] == Decimal(s) + [95] + Decimal(b);
    assert UniqueIndexName(t, c)[|u|..] == Decimal(t) + [95] + Decimal(c);
    SplitAt(Decimal(s), Decimal(b), Decimal(t), Decimal(c), 95);
    DecimalInjective(s, t);
    DecimalInjective(b, c);
  }

  /** The first separator splits a string in one way. */
  lemma SplitAt(a: Bytes, b: Bytes, c: Bytes, d: Bytes, separator: Byte)
    requires separator !in a && separator !in c && a + [separator] + b == c + [separator] + d
    ensures a == c && b == d
  {
    var s := a + [separator] + b;
    assert s[|a|] == separator && s[|c|] == separator;
    assert forall i :: 0 <= i < |a| ==> s[i] == a[i] && a[i] in a;
    assert forall i :: 0 <= i < |c| ==> s[i] == c[i] && c[i] in c;
    assert s[..|a|] == a && s[..|c|] == c && s[|a| + 1..] == b && s[|c| + 1..] == d;
  }
}
