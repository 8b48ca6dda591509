/** The `askedQuestions` entry of the browser's session storage, written by
    the chat after every question and read by the questions-and-answers page
    to avoid suggesting a question twice. */
module Session {
  import opened Text
  import opened Lists

  /** One element of the stored JSON array: a string, or any other JSON
      value (told apart by an identity, as distinct parsed objects are). */
  datatype Item = Str(s: string) | Other(id: nat)

  /** What `JSON.parse` makes of the stored text. `Absent` stands for a
      missing entry and for the empty string, both of which the code reads
      as `[]`. */
  datatype Stored = Absent | Malformed | NotList | List(items: seq<Item>)

  /** `q.toLowerCase().trim()`: the key under which a question is compared. */
  function Key(q: string): (k: string)
    ensures |k| <= |q|
    ensures k == [] <==> IsBlank(q)
  {
    LowerBlank(q);
    Trim(Lower(q))
  }

  lemma LowerBlank(q: string)
    ensures IsBlank(Lower(q)) == IsBlank(q)
  {
    assert forall i :: 0 <= i < |q| ==> IsSpace(Lower(q)[i]) == IsSpace(q[i]);
  }

  lemma TrimTwice(s: string)
    ensures Trim(Trim(s)) == Trim(s)
  {
    var r := Trim(s);
    if r != [] {
      assert SkipSpace(r, 0) == 0;
      assert BackSpace(r, |r|) == |r|;
      assert r[0..|r|] == r;
    }
  }

  lemma LowerTwice(s: string)
    ensures Lower(Lower(s)) == Lower(s)
  {
    assert forall c :: c in Lower(s) ==> !IsUpper(c);
    LowerIdentity(Lower(s));
  }

  /** Normalising a key again changes nothing. */
  lemma KeyIdempotent(q: string)
    ensures Key(Key(q)) == Key(q)
  {
    var t := Trim(Lower(q));
    TrimLower(Lower(q));
    LowerTwice(q);
    // Key(t) = Trim(Lower(Trim(Lower q))) = Trim(Trim(Lower(Lower q)))
    TrimLower(q);
    assert Lower(t) == Lower(Lower(Trim(q)));
    LowerTwice(Trim(q));
    TrimTwice(Lower(q));
  }

  /** `addAskedQuestion`: the stored list as a set, with the question's key
      added, written back as a list; storage that does not parse is left
      alone (the exception is swallowed). */
  function Remember(stored: Stored, q: string): (after: Stored)
    ensures stored.Malformed? ==> after == stored
    ensures !stored.Malformed? ==> after.List? && Str(Key(q)) in after.items
    ensures after.List? ==> Distinct(after.items)
  {
    match stored
    case Malformed => stored
    case List(items) => List(Dedup(items + [Str(Key(q))]))
    case _ => List([Str(Key(q))])
  }

  /** Remembering keeps everything stored before and adds only the key, so
      the list never holds the same value twice and never grows past one
      entry per distinct question. */
  lemma RememberContents(stored: Stored, q: string)
    requires stored.List?
    ensures var after := Remember(stored, q);
      forall x :: x in after.items <==> x in stored.items || x == Str(Key(q))
  {
  }

  /** A question asked twice is stored once. */
  lemma RememberAgain(stored: Stored, q: string)
    ensures Remember(Remember(stored, q), q) == Remember(stored, q)
  {
    var once := Remember(stored, q);
    if once.List? {
      var items := once.items;
      assert Str(Key(q)) in items;
      assert forall x :: x in items + [Str(Key(q))] <==> x in items;
      DedupGrow(items, Str(Key(q)));
    }
  }

  /** Adding a value a list without repeats already holds leaves it as is. */
  lemma DedupGrow<T(!new)>(items: seq<T>, x: T)
    requires Distinct(items) && x in items
    ensures Dedup(items + [x]) == items
  {
    var s := items + [x];
    assert s[..|s| - 1] == items;
    DedupDistinct(items);
  }

  predicate AllStrings(items: seq<Item>) {
    forall k :: 0 <= k < |items| ==> items[k].Str?
  }

  /** `alreadyAskedSet` of the questions-and-answers page: the keys of the
      stored strings; anything unreadable, and a list holding a non-string
      (whose `toLowerCase` throws), gives the empty set. */
  function AlreadyAsked(stored: Stored): (asked: set<string>)
    ensures stored.List? && AllStrings(stored.items) ==>
      forall q :: q in asked <==> exists k :: 0 <= k < |stored.items| && q == Key(stored.items[k].s)
    ensures !(stored.List? && AllStrings(stored.items)) ==> asked == {}
  {
    if stored.List? && AllStrings(stored.items) then
      set k | 0 <= k < |stored.items| :: Key(stored.items[k].s)
    else {}
  }

  lemma RememberAllStrings(stored: Stored, q: string)
    requires !stored.Malformed?
    requires stored.List? ==> AllStrings(stored.items)
    ensures AllStrings(Remember(stored, q).items)
  {
    var items := Remember(stored, q).items;
    if stored.List? {
      RememberContents(stored, q);
      forall j | 0 <= j < |items| ensures items[j].Str? {
        assert items[j] in items;
        if items[j] != Str(Key(q)) {
          var i :| 0 <= i < |stored.items| && stored.items[i] == items[j];
        }
      }
    }
  }

  lemma AskedHas(items: seq<Item>, k: nat)
    requires AllStrings(items) && k < |items|
    ensures Key(items[k].s) in AlreadyAsked(List(items))
  {
  }

  /** Every key the page reads comes from some stored string. */
  lemma AskedFrom(items: seq<Item>, w: string) returns (k: nat)
    requires AllStrings(items) && w in AlreadyAsked(List(items))
    ensures k < |items| && w == Key(items[k].s)
  {
    k :| 0 <= k < |items| && w == Key(items[k].s);
  }

  /** The page's set is the keys of the stored strings, whatever their order
      or repetition. */
  lemma AskedOfSameItems(a: seq<Item>, b: seq<Item>, extra: string)
    requires AllStrings(a) && AllStrings(b)
    requires forall x :: x in b <==> x in a || x == Str(extra)
    requires Key(extra) == extra
    ensures AlreadyAsked(List(b)) == AlreadyAsked(List(a)) + {extra}
  {
    forall w | w in AlreadyAsked(List(b)) ensures w in AlreadyAsked(List(a)) + {extra} {
      var j := AskedFrom(b, w);
      assert b[j] in b;
      if b[j] != Str(extra) {
        var i :| 0 <= i < |a| && a[i] == b[j];
        AskedHas(a, i);
      }
    }
    forall w | w in AlreadyAsked(List(a)) + {extra} ensures w in AlreadyAsked(List(b)) {
      if w in AlreadyAsked(List(a)) {
        var i := AskedFrom(a, w);
        assert a[i] in a;
        var j :| 0 <= j < |b| && b[j] == a[i];
        AskedHas(b, j);
      } else {
        assert Str(extra) in b;
        var j :| 0 <= j < |b| && b[j] == Str(extra);
        AskedHas(b, j);
      }
    }
  }

  /** A question the chat remembers is in the set the page reads back, so
      the page does not suggest it again; nothing else is added. */
  lemma RememberedIsAsked(stored: Stored, q: string)
    requires !stored.Malformed?
    requires stored.List? ==> AllStrings(stored.items)
    ensures Key(q) in AlreadyAsked(Remember(stored, q))
    ensures stored.List? ==> AlreadyAsked(Remember(stored, q)) == AlreadyAsked(stored) + {Key(q)}
    ensures !stored.List? ==> AlreadyAsked(Remember(stored, q)) == {Key(q)}
  {
    var after := Remember(stored, q);
    RememberAllStrings(stored, q);
    KeyIdempotent(q);
    if stored.List? {
      RememberContents(stored, q);
      AskedOfSameItems(stored.items, after.items, Key(q));
    } else {
      AskedOfSameItems([], after.items, Key(q));
    }
  }
}
