/** The draft "new contacts" array that the add/remove buttons and the input
    fields of the insert form edit before it is saved. */
module Drafts {

  /** One draft contact: a plain object from field name to value. */
  type Draft = map<string, string>

  /** The object `handleAddContact` pushes: four empty fields and the
      current account as `AccountId`. */
  function BlankContact(accountId: string): (d: Draft)
    ensures d.Keys == {"FirstName", "LastName", "Phone", "Email", "AccountId"}
    ensures forall f :: f in d && f != "AccountId" ==> d[f] == ""
    ensures d["AccountId"] == accountId
  {
    map["FirstName" := "", "LastName" := "", "Phone" := "", "Email" := "", "AccountId" := accountId]
  }

  /** Where `splice(start, 1)` starts: a negative start counts back from the
      end (and stops at 0), a start past the end is the end. */
  function SpliceStart(length: nat, start: int): (actual: nat)
    ensures actual <= length
  {
    if start < 0 then (if length + start < 0 then 0 else length + start)
    else if start > length then length
    else start
  }

  /** `array.splice(start, 1)` on the drafts: removes the one element at the
      actual start, if there is one there. */
  function SpliceOne<T>(s: seq<T>, start: int): seq<T>
  {
    var at := SpliceStart(|s|, start);
    if at < |s| then s[..at] + s[at + 1..] else s
  }

  /** For an index inside the array, splice removes exactly that element and
      keeps the others in their order. */
  lemma RemoveAt<T>(s: seq<T>, index: int)
    requires 0 <= index < |s|
    ensures var r := SpliceOne(s, index);
      && |r| == |s| - 1
      && (forall k :: 0 <= k < index ==> r[k] == s[k])
      && (forall k :: index <= k < |r| ==> r[k] == s[k + 1])
  {
  }

  /** An index at or past the end removes nothing; a negative index inside
      the array removes the element that many places from the end. */
  lemma RemoveOutside<T>(s: seq<T>, index: int)
    ensures index >= |s| ==> SpliceOne(s, index) == s
    ensures -|s| <= index < 0 ==> SpliceOne(s, index) == SpliceOne(s, |s| + index)
    ensures index < -|s| && |s| > 0 ==> SpliceOne(s, index) == s[1..]
  {
  }

  /** `contacts[index][field] = value`, defined when `contacts[index]` exists. */
  function SetField(contacts: seq<Draft>, index: int, field: string, value: string): seq<Draft>
    requires 0 <= index < |contacts|
  {
    contacts[index := contacts[index][field := value]]
  }

  /** The field write touches one field of one draft and nothing else. */
  lemma SetFieldOnly(contacts: seq<Draft>, index: int, field: string, value: string)
    requires 0 <= index < |contacts|
    ensures var r := SetField(contacts, index, field, value);
      && |r| == |contacts|
      && (forall k :: 0 <= k < |r| && k != index ==> r[k] == contacts[k])
      && r[index][field] == value
      && r[index].Keys == contacts[index].Keys + {field}
      && (forall f :: f in contacts[index] && f != field ==> r[index][f] == contacts[index][f])
  {
  }
}
