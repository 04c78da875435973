/** The alias table of the calendar fixer: Windows timezone names, as
    Exchange-style exporters write them, and the IANA identifiers they stand
    for. */
module Aliases {
  import opened Text

  datatype Option<T> = None | Some(value: T)

  /** One alias: a Windows timezone name and its IANA identifier. */
  type Alias = (string, string)

  /** The table, in its insertion order, which is the order the rewriter
      walks it in. */
  const TzMapping: seq<Alias> := [
    ("Romance Standard Time", "Europe/Brussels"),
    ("W. Europe Standard Time", "Europe/Paris"),
    ("GMT Standard Time", "Europe/London"),
    ("Eastern Standard Time", "America/New_York"),
    ("Central European Standard Time", "Europe/Warsaw"),
    ("Fiji Standard Time", "Pacific/Fiji"),
    ("Central Standard Time", "America/Chicago"),
    ("Pacific Standard Time", "America/Los_Angeles"),
    ("Morocco Standard Time", "Africa/Casablanca"),
    ("FLE Standard Time", "Europe/Kiev")
  ]

  /** No Windows name is listed twice, as for the keys of a dictionary. */
  predicate DistinctKeys(table: seq<Alias>) {
    forall i, j :: 0 <= i < j < |table| ==> table[i].0 != table[j].0
  }

  /** The IANA identifier listed for `name`, compared exactly (no case
      folding, no prefix match). In a table with distinct keys, as the
      program's is, at most one entry matches (`LookupListed`). */
  function Lookup(table: seq<Alias>, name: string): (r: Option<string>)
    ensures r.None? <==> forall i :: 0 <= i < |table| ==> table[i].0 != name
    ensures r.Some? ==> exists i :: 0 <= i < |table| && table[i] == (name, r.value)
  {
    if table == [] then None
    else if table[0].0 == name then Some(table[0].1)
    else
      var r := Lookup(table[1..], name);
      assert forall i :: 1 <= i < |table| ==> table[i] == table[1..][i - 1];
      r
  }

  /** With distinct keys, looking up a listed name gives exactly its entry. */
  lemma {:induction false} LookupListed(table: seq<Alias>, i: nat)
    requires DistinctKeys(table) && i < |table|
    ensures Lookup(table, table[i].0) == Some(table[i].1)
  {
    if i > 0 {
      assert table[0].0 != table[i].0;
      assert table[1..][i - 1] == table[i];
      LookupListed(table[1..], i - 1);
    }
  }

  /** The table has ten entries and no duplicate Windows name. Distinct
      keys follow from the names' lengths and first letters. */
  lemma TableShape()
    ensures |TzMapping| == 10
    ensures DistinctKeys(TzMapping)
  {
    forall i, j | 0 <= i < j < |TzMapping| ensures TzMapping[i].0 != TzMapping[j].0 {
      assert |TzMapping[i].0| != |TzMapping[j].0| || TzMapping[i].0[0] != TzMapping[j].0[0];
    }
  }

  /** Every Windows name holds a space, and no IANA identifier does. */
  lemma TableSpacing()
    ensures forall i :: 0 <= i < |TzMapping| ==> ' ' in TzMapping[i].0 && ' ' !in TzMapping[i].1
  {
  }

  /** No IANA identifier of the table contains any Windows name of it. This
      is a fact about the table alone: an identifier together with the text
      around it may still spell a name (`Pacific/Fiji` followed by
      ` Standard Time`), and the proofs about rewriting rest on the
      character classes of `Rewriter.SafeTable` instead. */
  lemma ValuesFreeOfKeys()
    ensures forall i, j :: 0 <= i < |TzMapping| && 0 <= j < |TzMapping| ==>
      !Contains(TzMapping[j].1, TzMapping[i].0)
  {
    TableSpacing();
    forall i, j | 0 <= i < |TzMapping| && 0 <= j < |TzMapping|
      ensures !Contains(TzMapping[j].1, TzMapping[i].0)
    {
      ContainsChars(TzMapping[j].1, TzMapping[i].0, ' ');
    }
  }

  /** Lookup is by exact name: a listed name gives its identifier, a name
      that is only part of one, or differs in case, gives nothing. */
  lemma ExactLookup()
    ensures Lookup(TzMapping, "Romance Standard Time") == Some("Europe/Brussels")
    ensures Lookup(TzMapping, "Standard Time") == None
    ensures Lookup(TzMapping, "romance standard time") == None
  {
    TableShape();
    LookupListed(TzMapping, 0);
    forall i | 0 <= i < |TzMapping|
      ensures TzMapping[i].0 != "Standard Time" && TzMapping[i].0 != "romance standard time"
    {
      assert |TzMapping[i].0| > |"Standard Time"|;
      assert TzMapping[i].0[0] != "romance standard time"[0];
    }
  }
}
