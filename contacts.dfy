/**
 * The contact list of the front end's home page: the search-and-industry
 * filter that decides which contacts are shown, and the filter that drops a
 * deleted contact from the list.  Both are `Array.prototype.filter` calls
 * with a boolean predicate and no mutation.
 */
module Contacts {

  /** A contact record as the contacts route returns it. */
  datatype Contact = Contact(
    id: string,
    name: string,
    companyName: string,
    email: string,
    phoneNumber: string,
    country: string,
    industry: string)

  // ---------------------------------------------------------------------
  // Array.prototype.filter

  /** The elements of `s` for which `keep` holds, in their original order. */
  function Filter<T>(s: seq<T>, keep: T -> bool): (r: seq<T>)
    ensures |r| <= |s|
    ensures forall x :: x in r ==> x in s && keep(x)
  {
    if s == [] then []
    else if keep(s[0]) then [s[0]] + Filter(s[1..], keep)
    else Filter(s[1..], keep)
  }

  /** `a` can be obtained from `b` by deleting elements: same order, nothing repeated. */
  ghost predicate IsSubsequence<T>(a: seq<T>, b: seq<T>)
    decreases |b|
  {
    a == [] || (b != [] && ((a[0] == b[0] && IsSubsequence(a[1..], b[1..])) || IsSubsequence(a, b[1..])))
  }

  /** The result of a filter is a subsequence of its input. */
  lemma {:induction false} FilterIsSubsequence<T>(s: seq<T>, keep: T -> bool)
    ensures IsSubsequence(Filter(s, keep), s)
  {
    if s != [] {
      FilterIsSubsequence(s[1..], keep);
      var r := Filter(s, keep);
      if keep(s[0]) {
        assert r[0] == s[0] && r[1..] == Filter(s[1..], keep);
      }
    }
  }

  /**
   * A filter keeps every occurrence of each element that passes and none of
   * an element that fails.
   */
  lemma {:induction false} FilterCount<T>(s: seq<T>, keep: T -> bool, x: T)
    ensures multiset(Filter(s, keep))[x] == if keep(x) then multiset(s)[x] else 0
  {
    if s != [] {
      FilterCount(s[1..], keep, x);
      assert s == [s[0]] + s[1..];
      assert multiset(s) == multiset{s[0]} + multiset(s[1..]);
    }
  }

  /** Applying the same filter twice gives the result of applying it once. */
  lemma {:induction false} FilterIdempotent<T>(s: seq<T>, keep: T -> bool)
    ensures Filter(Filter(s, keep), keep) == Filter(s, keep)
  {
    if s != [] {
      FilterIdempotent(s[1..], keep);
      if keep(s[0]) {
        var r := Filter(s, keep);
        assert r[0] == s[0] && r[1..] == Filter(s[1..], keep);
      }
    }
  }

  /** A filter that every element passes returns its input. */
  lemma {:induction false} FilterKeepsAll<T>(s: seq<T>, keep: T -> bool)
    requires forall i :: 0 <= i < |s| ==> keep(s[i])
    ensures Filter(s, keep) == s
  {
    if s != [] {
      FilterKeepsAll(s[1..], keep);
      assert [s[0]] + s[1..] == s;
    }
  }

  // ---------------------------------------------------------------------
  // String.prototype.toLowerCase and String.prototype.includes

  /** Lower-cases an ASCII capital letter and leaves every other character as it is. */
  function LowerChar(c: char): char
  {
    if 'A' <= c <= 'Z' then (c as int + 32) as char else c
  }

  /** `s.toLowerCase()`, restricted to ASCII capitals. */
  function ToLower(s: string): (r: string)
    ensures |r| == |s|
    ensures forall i :: 0 <= i < |s| ==> r[i] == LowerChar(s[i])
    ensures forall i :: 0 <= i < |r| ==> !('A' <= r[i] <= 'Z')
  {
    if s == [] then [] else [LowerChar(s[0])] + ToLower(s[1..])
  }

  /** `t` occurs in `s` starting at position `i`. */
  ghost predicate OccursAt(s: string, t: string, i: int)
  {
    0 <= i && i + |t| <= |s| && s[i..i + |t|] == t
  }

  /** `s.includes(t)`: try every start position from the left. */
  predicate Includes(s: string, t: string): (b: bool)
    ensures b ==> |t| <= |s|
    ensures t == [] ==> b
    decreases |s|
  {
    if |t| > |s| then false
    else if s[..|t|] == t then true
    else Includes(s[1..], t)
  }

  /** `includes` holds exactly when `t` occurs somewhere in `s`. */
  lemma {:induction false} IncludesIffOccurs(s: string, t: string)
    ensures Includes(s, t) <==> exists i :: OccursAt(s, t, i)
    decreases |s|
  {
    if |t| > |s| {
    } else if s[..|t|] == t {
      assert OccursAt(s, t, 0);
    } else {
      IncludesIffOccurs(s[1..], t);
      if exists i :: OccursAt(s[1..], t, i) {
        var i :| OccursAt(s[1..], t, i);
        assert s[1..][i..i + |t|] == s[i + 1..i + 1 + |t|];
        assert OccursAt(s, t, i + 1);
      }
      if exists i :: OccursAt(s, t, i) {
        var i :| OccursAt(s, t, i);
        assert i != 0;
        assert s[1..][i - 1..i - 1 + |t|] == s[i..i + |t|];
        assert OccursAt(s[1..], t, i - 1);
      }
    }
  }

  /** Every string includes the empty string. */
  lemma IncludesEmpty(s: string)
    ensures Includes(s, "")
  {
    IncludesIffOccurs(s, "");
    assert OccursAt(s, "", 0);
  }

  // ---------------------------------------------------------------------
  // filteredContacts and handleDeleteContact

  /** The contact's lower-cased name has the lower-cased search text somewhere in it. */
  ghost predicate NameContains(c: Contact, search: string)
  {
    exists i :: OccursAt(ToLower(c.name), ToLower(search), i)
  }

  /** The predicate of `filteredContacts`; an empty `filter` is falsy and lets every industry through. */
  predicate Matches(c: Contact, search: string, filter: string): (b: bool)
    ensures b <==> NameContains(c, search) && (filter == "" || c.industry == filter)
  {
    IncludesIffOccurs(ToLower(c.name), ToLower(search));
    Includes(ToLower(c.name), ToLower(search)) && (if filter != "" then c.industry == filter else true)
  }

  /** The callback passed to `filter` in `filteredContacts`. */
  function ShownBy(search: string, filter: string): Contact -> bool
  {
    c => Matches(c, search, filter)
  }

  /** The callback passed to `filter` in `handleDeleteContact`. */
  function OtherThan(id: string): Contact -> bool
  {
    (c: Contact) => c.id != id
  }

  /** The contacts shown for the current search text and industry filter. */
  function FilteredContacts(contacts: seq<Contact>, search: string, filter: string): (r: seq<Contact>)
    ensures |r| <= |contacts|
    ensures forall c :: c in r ==> c in contacts && Matches(c, search, filter)
  {
    Filter(contacts, ShownBy(search, filter))
  }

  /** The list after the contact with id `id` has been deleted. */
  function RemoveContact(contacts: seq<Contact>, id: string): (r: seq<Contact>)
    ensures |r| <= |contacts|
    ensures forall c :: c in r ==> c in contacts && c.id != id
  {
    Filter(contacts, OtherThan(id))
  }

  /** The shown list keeps the original order and repeats nothing. */
  lemma FilteredIsSubsequence(contacts: seq<Contact>, search: string, filter: string)
    ensures IsSubsequence(FilteredContacts(contacts, search, filter), contacts)
  {
    FilterIsSubsequence(contacts, ShownBy(search, filter));
  }

  /**
   * Exactly the matching contacts are shown: a contact appears as often as in
   * the full list when its lower-cased name contains the lower-cased search
   * text and, if a filter is set, its industry equals the filter; otherwise it
   * does not appear at all.
   */
  lemma FilteredExactly(contacts: seq<Contact>, search: string, filter: string, c: Contact)
    ensures multiset(FilteredContacts(contacts, search, filter))[c] ==
      if NameContains(c, search)
         && (filter == "" || c.industry == filter)
      then multiset(contacts)[c] else 0
  {
    FilterCount(contacts, ShownBy(search, filter), c);
    IncludesIffOccurs(ToLower(c.name), ToLower(search));
    assert Matches(c, search, filter) <==>
      NameContains(c, search) && (filter == "" || c.industry == filter);
  }

  /** Every shown contact matches the search text and, if set, the industry filter. */
  lemma FilteredSound(contacts: seq<Contact>, search: string, filter: string)
    ensures forall c :: c in FilteredContacts(contacts, search, filter) ==>
      NameContains(c, search)
      && (filter != "" ==> c.industry == filter)
  {
    forall c | c in FilteredContacts(contacts, search, filter)
      ensures NameContains(c, search)
        && (filter != "" ==> c.industry == filter)
    {
      assert c in multiset(FilteredContacts(contacts, search, filter));
      FilteredExactly(contacts, search, filter, c);
    }
  }

  /** Every contact that matches the search text and the filter is shown. */
  lemma FilteredComplete(contacts: seq<Contact>, search: string, filter: string)
    ensures forall c :: (c in contacts
                          && NameContains(c, search)
                          && (filter == "" || c.industry == filter))
                        ==> c in FilteredContacts(contacts, search, filter)
  {
    forall c | c in contacts
      && NameContains(c, search)
      && (filter == "" || c.industry == filter)
      ensures c in FilteredContacts(contacts, search, filter)
    {
      assert c in multiset(contacts);
      FilteredExactly(contacts, search, filter, c);
      assert c in multiset(FilteredContacts(contacts, search, filter));
    }
  }

  /** With no search text and no industry selected, every contact is shown, in order. */
  lemma EmptyQueryShowsAll(contacts: seq<Contact>)
    ensures FilteredContacts(contacts, "", "") == contacts
  {
    forall i | 0 <= i < |contacts|
      ensures Matches(contacts[i], "", "")
    {
      IncludesEmpty(ToLower(contacts[i].name));
    }
    FilterKeepsAll(contacts, ShownBy("", ""));
  }

  /** Filtering the shown list again with the same search and filter changes nothing. */
  lemma FilteredIdempotent(contacts: seq<Contact>, search: string, filter: string)
    ensures FilteredContacts(FilteredContacts(contacts, search, filter), search, filter)
      == FilteredContacts(contacts, search, filter)
  {
    FilterIdempotent(contacts, ShownBy(search, filter));
  }

  /**
   * After a delete no contact with the deleted id is left, every other contact
   * is kept as often as before, and the order is unchanged.
   */
  lemma RemoveContactSpec(contacts: seq<Contact>, id: string)
    ensures forall c :: c in RemoveContact(contacts, id) ==> c.id != id
    ensures forall c: Contact :: c.id != id ==> multiset(RemoveContact(contacts, id))[c] == multiset(contacts)[c]
    ensures IsSubsequence(RemoveContact(contacts, id), contacts)
  {
    forall c: Contact
      ensures multiset(RemoveContact(contacts, id))[c] == if c.id != id then multiset(contacts)[c] else 0
    {
      FilterCount(contacts, OtherThan(id), c);
    }
    FilterIsSubsequence(contacts, OtherThan(id));
  }

  /** Deleting an id that no contact has leaves the list as it was. */
  lemma RemoveAbsentContact(contacts: seq<Contact>, id: string)
    requires forall i :: 0 <= i < |contacts| ==> contacts[i].id != id
    ensures RemoveContact(contacts, id) == contacts
  {
    FilterKeepsAll(contacts, OtherThan(id));
  }
}
