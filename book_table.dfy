/** The book table as values: what the store's list of books means, record by
    record, and the properties of lookup, defaulting, patching, deletion and
    counting that the store's methods are proved against. */
module BookTable {
  import opened Nullable
  import opened Books

  /** The three sample books the store starts with; the id counter starts at 3. */
  function SeedRecords(): seq<BookRecord>
  {
    [ BookRecord(Some(1), Some("Java Programming"), Some("John Doe"), Some(2022), Some(true)),
      BookRecord(Some(2), Some("Spring Boot Guide"), Some("Jane Smith"), Some(2023), Some(true)),
      BookRecord(Some(3), Some("Microservices Architecture"), Some("Mike Johnson"), Some(2021), Some(false)) ]
  }

  const SeedCounter: nat := 3

  /** The null-safety invariant: every stored record has an id and an availability. */
  predicate NullSafe(s: seq<BookRecord>)
  {
    forall i :: 0 <= i < |s| ==> s[i].id.Some? && s[i].available.Some?
  }

  /** Ids are pairwise distinct and none exceeds the counter, so the next
      automatically assigned id (counter + 1) is not in use. */
  predicate FreshIds(s: seq<BookRecord>, counter: nat)
  {
    (forall i :: 0 <= i < |s| ==> s[i].id.Some? && s[i].id.value <= counter) &&
    (forall i, j :: 0 <= i < j < |s| ==> s[i].id != s[j].id)
  }

  predicate HasId(s: seq<BookRecord>, id: int)
  {
    exists i :: 0 <= i < |s| && s[i].id == Some(id)
  }

  // ---------------------------------------------------------------- lookup

  /** Position of the first record whose id equals `id`, if any. */
  function FindFirst(s: seq<BookRecord>, id: int): (r: Option<nat>)
    ensures r.None? <==> !HasId(s, id)
    ensures r.Some? ==> r.value < |s| && s[r.value].id == Some(id)
    ensures r.Some? ==> forall j :: 0 <= j < r.value ==> s[j].id != Some(id)
  {
    if s == [] then None
    else if s[0].id == Some(id) then Some(0)
    else match FindFirst(s[1..], id)
      case None => None
      case Some(k) => Some(k + 1)
  }

  /** Appending a record never changes an existing match, and a record with a
      fresh id is found at the end: a lookup after an add finds what was added. */
  lemma {:induction false} FindFirstAppend(s: seq<BookRecord>, rec: BookRecord, id: int)
    ensures FindFirst(s + [rec], id) ==
      if HasId(s, id) then FindFirst(s, id)
      else if rec.id == Some(id) then Some(|s|)
      else None
  {
    var t := s + [rec];
    assert forall j :: 0 <= j < |s| ==> t[j] == s[j];
    assert t[|s|] == rec;
  }

  /** Under distinct ids the first match is the only match. */
  lemma FindFirstUnique(s: seq<BookRecord>, counter: nat, i: nat)
    requires FreshIds(s, counter)
    requires i < |s|
    ensures FindFirst(s, s[i].id.value) == Some(i)
  {
  }

  // ---------------------------------------------------------------- add

  /** The record addBook stores: an id is assigned (counter + 1) only when
      missing, and a missing year or availability gets its default. */
  function Defaulted(rec: BookRecord, counter: nat, currentYear: int): (r: BookRecord)
    ensures r.id.Some? && r.year.Some? && r.available.Some?
    ensures rec.id.Some? ==> r.id == rec.id
    ensures rec.year.Some? ==> r.year == rec.year
    ensures rec.available.Some? ==> r.available == rec.available
    ensures r.title == rec.title && r.author == rec.author
  {
    BookRecord(
      if rec.id.None? then Some(counter + 1) else rec.id,
      rec.title,
      rec.author,
      if rec.year.None? then Some(currentYear) else rec.year,
      if rec.available.None? then Some(true) else rec.available)
  }

  /** The counter after addBook: advanced exactly when an id was assigned. */
  function NextCounter(rec: BookRecord, counter: nat): (r: nat)
    ensures counter <= r <= counter + 1
    ensures r == counter + 1 <==> rec.id.None?
  {
    if rec.id.None? then counter + 1 else counter
  }

  /** Adding a book whose id is null keeps the ids distinct and below the counter. */
  lemma AddFreshKeepsIdsFresh(s: seq<BookRecord>, counter: nat, rec: BookRecord, currentYear: int)
    requires FreshIds(s, counter)
    requires rec.id.None?
    ensures FreshIds(s + [Defaulted(rec, counter, currentYear)], NextCounter(rec, counter))
  {
  }

  /** A caller-supplied id is kept as it is, so two books can end up with the
      same id: from the seed, adding a book with id 4 and then one with a null
      id stores id 4 twice, and lookup by 4 finds only the first. */
  lemma SuppliedIdCanDuplicate(currentYear: int)
    ensures var given := BookRecord(Some(4), Some("A"), None, None, None);
            var plain := BookRecord(None, Some("B"), None, None, None);
            var s1 := SeedRecords() + [Defaulted(given, SeedCounter, currentYear)];
            var c1 := NextCounter(given, SeedCounter);
            var s2 := s1 + [Defaulted(plain, c1, currentYear)];
            c1 == 3 && |s2| == 5 && s2[3].id == s2[4].id == Some(4) &&
            !FreshIds(s2, NextCounter(plain, c1)) && FindFirst(s2, 4) == Some(3)
  {
  }

  // ---------------------------------------------------------------- update

  /** A record after the partial update: every non-null field of the patch
      except the id overwrites the stored one; null fields leave it alone. */
  function Patched(rec: BookRecord, patch: BookRecord): (r: BookRecord)
    ensures r.id == rec.id
    ensures patch.title.Some? ==> r.title == patch.title
    ensures patch.title.None? ==> r.title == rec.title
    ensures patch.author.Some? ==> r.author == patch.author
    ensures patch.author.None? ==> r.author == rec.author
    ensures patch.year.Some? ==> r.year == patch.year
    ensures patch.year.None? ==> r.year == rec.year
    ensures patch.available.Some? ==> r.available == patch.available
    ensures patch.available.None? ==> r.available == rec.available
  {
    BookRecord(
      rec.id,
      OrElse(patch.title, rec.title),
      OrElse(patch.author, rec.author),
      OrElse(patch.year, rec.year),
      OrElse(patch.available, rec.available))
  }

  /** The patch keeps the id, never writes a null over a value, and applying it
      twice is the same as applying it once; an all-null patch changes nothing. */
  lemma PatchedProperties(rec: BookRecord, patch: BookRecord)
    ensures Patched(rec, patch).id == rec.id
    ensures rec.available.Some? ==> Patched(rec, patch).available.Some?
    ensures Patched(Patched(rec, patch), patch) == Patched(rec, patch)
    ensures patch.title.None? && patch.author.None? && patch.year.None? && patch.available.None?
            ==> Patched(rec, patch) == rec
  {
  }

  /** A patch carrying only a title changes only the title. */
  lemma PatchTitleOnly(rec: BookRecord, title: string)
    ensures Patched(rec, BookRecord(None, Some(title), None, None, None)) == rec.(title := Some(title))
  {
  }

  /** Patching one record keeps the table null-safe and its ids fresh. */
  lemma PatchAtKeepsInvariants(s: seq<BookRecord>, counter: nat, k: nat, patch: BookRecord)
    requires k < |s|
    ensures NullSafe(s) ==> NullSafe(s[k := Patched(s[k], patch)])
    ensures FreshIds(s, counter) ==> FreshIds(s[k := Patched(s[k], patch)], counter)
  {
  }

  // ---------------------------------------------------------------- delete

  /** The records whose id differs from `id`, in their original order. */
  function RemoveAll(s: seq<BookRecord>, id: int): (r: seq<BookRecord>)
    ensures |r| <= |s|
    ensures !HasId(r, id)
    ensures |r| == |s| <==> !HasId(s, id)
    ensures forall x :: x in r ==> x in s
  {
    if s == [] then []
    else if s[0].id == Some(id) then RemoveAll(s[1..], id)
    else [s[0]] + RemoveAll(s[1..], id)
  }

  /** Deleting distributes over concatenation: the kept records stay in their
      relative order, and only records with the id are dropped. */
  lemma {:induction false} RemoveAllAppend(s: seq<BookRecord>, t: seq<BookRecord>, id: int)
    ensures RemoveAll(s + t, id) == RemoveAll(s, id) + RemoveAll(t, id)
  {
    if s == [] {
      assert s + t == t;
    } else {
      assert (s + t)[0] == s[0];
      assert (s + t)[1..] == s[1..] + t;
      RemoveAllAppend(s[1..], t, id);
    }
  }

  /** A single record is dropped exactly when it carries the id. */
  lemma RemoveAllSingle(rec: BookRecord, id: int)
    ensures RemoveAll([rec], id) == if rec.id == Some(id) then [] else [rec]
  {
  }

  /** A second delete of the same id removes nothing and reports no removal. */
  lemma {:induction false} RemoveAllIdempotent(s: seq<BookRecord>, id: int)
    ensures RemoveAll(RemoveAll(s, id), id) == RemoveAll(s, id)
  {
    var r := RemoveAll(s, id);
    if r != [] {
      assert r[0].id != Some(id);
      RemoveAllIdempotent(s[1..], id);
    }
  }

  /** Deleting keeps the table null-safe and the ids fresh. */
  lemma {:induction false} RemoveAllKeepsInvariants(s: seq<BookRecord>, counter: nat, id: int)
    ensures NullSafe(s) ==> NullSafe(RemoveAll(s, id))
    ensures FreshIds(s, counter) ==> FreshIds(RemoveAll(s, id), counter)
  {
    if s != [] {
      RemoveAllKeepsInvariants(s[1..], counter, id);
      var r := RemoveAll(s[1..], id);
      if FreshIds(s, counter) && s[0].id != Some(id) {
        var t := [s[0]] + r;
        forall j | 0 < j < |t| ensures t[0].id != t[j].id {
          assert t[j] in s[1..];
        }
      }
    }
  }

  /** Deleting id 2 from the seed leaves books 1 and 3 in their original order. */
  lemma DeleteTwoFromSeed()
    ensures RemoveAll(SeedRecords(), 2) == [SeedRecords()[0], SeedRecords()[2]]
  {
  }

  // ---------------------------------------------------------------- counts

  /** The number of records whose availability is true. */
  function CountAvailable(s: seq<BookRecord>): (n: nat)
    ensures n <= |s|
  {
    if s == [] then 0
    else (if s[0].available == Some(true) then 1 else 0) + CountAvailable(s[1..])
  }

  /** The number of records whose availability is false. */
  function CountUnavailable(s: seq<BookRecord>): (n: nat)
    ensures n <= |s|
  {
    if s == [] then 0
    else (if s[0].available == Some(false) then 1 else 0) + CountUnavailable(s[1..])
  }

  /** In a null-safe table every book is available or unavailable, so the
      unavailable ones are the total minus the available ones. */
  lemma {:induction false} CountsPartition(s: seq<BookRecord>)
    requires NullSafe(s)
    ensures CountAvailable(s) + CountUnavailable(s) == |s|
  {
    if s != [] {
      assert NullSafe(s[1..]) by {
        forall i | 0 <= i < |s| - 1 ensures s[1..][i] == s[i + 1] { }
      }
      CountsPartition(s[1..]);
      if s[0].available != Some(true) {
        assert s[0].available.value == false;
      }
    }
  }

  /** Counting available books distributes over concatenation. */
  lemma {:induction false} CountAvailableAppend(s: seq<BookRecord>, t: seq<BookRecord>)
    ensures CountAvailable(s + t) == CountAvailable(s) + CountAvailable(t)
  {
    if s == [] {
      assert s + t == t;
    } else {
      assert (s + t)[1..] == s[1..] + t;
      CountAvailableAppend(s[1..], t);
    }
  }

  /** The seed is null-safe with fresh ids, two of its books are available and one is not. */
  lemma SeedProperties()
    ensures NullSafe(SeedRecords()) && FreshIds(SeedRecords(), SeedCounter)
    ensures CountAvailable(SeedRecords()) == 2 && CountUnavailable(SeedRecords()) == 1
  {
  }
}
