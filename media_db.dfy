/** `get_medium_from_media_db`, of which the repository keeps two identical
    copies: the exchange reactions of one medium of a media database, each
    with the same maximum uptake, in dictionary order, and the text of the
    optional output file. The database rows are in memory; writing the file
    is left to the caller, which receives its text. */
module MediaDb {

  import opened Wrappers
  import opened Strings
  import opened ReconstructionHelpers

  /** The exchange ids of the rows of `mediumId`, appended to acc in order
      of first appearance (a dictionary keeps the first position of a key
      assigned twice). */
  function ExchangeKeys(acc: seq<string>, rows: seq<MediaRow>, mediumId: string, compartment: string): (r: seq<string>)
    requires Distinct(acc)
    ensures Distinct(r) && acc <= r
    ensures forall k :: k in r <==> k in acc || exists row :: row in rows && row.0 == mediumId && k == ExchangeId(row.1, compartment)
    decreases |rows|
  {
    if rows == [] then acc
    else
      var key := ExchangeId(rows[0].1, compartment);
      var acc' := if rows[0].0 == mediumId && key !in acc then acc + [key] else acc;
      var r := ExchangeKeys(acc', rows[1..], mediumId, compartment);
      assert forall row :: row in rows <==> row == rows[0] || row in rows[1..];
      r
  }

  /** Lines 25-31: ValueError for a medium without rows; otherwise the
      dictionary from each exchange of the medium to `maxUptake`, as its
      (key, value) entries in order. The defaults are those of lines 8-9. */
  function GetMediumFromMediaDb(rows: seq<MediaRow>, mediumId: string, compartment: string := "e", maxUptake: real := 1000.0)
    : (r: Result<seq<(string, real)>, HelperError>)
  {
    if forall row :: row in rows ==> row.0 != mediumId then Failure(MediumNotFound(mediumId))
    else
      var keys := ExchangeKeys([], rows, mediumId, compartment);
      Success(seq(|keys|, i requires 0 <= i < |keys| => (keys[i], maxUptake)))
  }

  /** The keys of the entries, in order. */
  function Keys(entries: seq<(string, real)>): seq<string>
  {
    seq(|entries|, i requires 0 <= i < |entries| => entries[i].0)
  }

  /** ValueError exactly for a medium that has no row; otherwise each
      exchange `EX_<compound>_<compartment>` of the medium's rows is one
      entry (a compound listed twice gives one key), and nothing else is. */
  lemma MediumEntries(rows: seq<MediaRow>, mediumId: string, compartment: string, maxUptake: real)
    ensures var r := GetMediumFromMediaDb(rows, mediumId, compartment, maxUptake);
      && (r.Failure? <==> forall row :: row in rows ==> row.0 != mediumId)
      && (r.Failure? ==> r.error == MediumNotFound(mediumId))
      && (r.Success? ==>
            && Distinct(Keys(r.value))
            && (forall k :: k in Keys(r.value) <==> exists c :: c in CompoundsOf(rows, mediumId) && k == ExchangeId(c, compartment))
            && (forall i :: 0 <= i < |r.value| ==> r.value[i].1 == maxUptake))
  {
    var r := GetMediumFromMediaDb(rows, mediumId, compartment, maxUptake);
    if r.Success? {
      var keys := ExchangeKeys([], rows, mediumId, compartment);
      assert Keys(r.value) == keys;
      forall k ensures k in keys <==> exists c :: c in CompoundsOf(rows, mediumId) && k == ExchangeId(c, compartment) {
        if k in keys {
          var row :| row in rows && row.0 == mediumId && k == ExchangeId(row.1, compartment);
          assert row.1 in CompoundsOf(rows, mediumId);
        }
        if exists c :: c in CompoundsOf(rows, mediumId) && k == ExchangeId(c, compartment) {
          var c :| c in CompoundsOf(rows, mediumId) && k == ExchangeId(c, compartment);
          var row :| row in rows && row.0 == mediumId && row.1 == c;
        }
      }
    }
  }

  /** With the default compartment and uptake, the keys are those of the
      medium dictionary of the reconstruction helpers, and both fail on the
      same media. */
  lemma DefaultsAgreeWithHelper(rows: seq<MediaRow>, mediumId: string)
    ensures var r := GetMediumFromMediaDb(rows, mediumId);
      var h := GetMediumDict(rows, mediumId);
      && (r.Success? <==> h.Success?)
      && (r.Success? ==> (forall k :: k in Keys(r.value) <==> k in h.value) && forall i :: 0 <= i < |r.value| ==> r.value[i].1 == 1000.0)
  {
    MediumEntries(rows, mediumId, "e", 1000.0);
  }

  /** Lines 32-35: one line `key<TAB>value` per entry, in order. How Python
      renders a float is the parameter `show`. */
  function MediumFile(entries: seq<(string, real)>, show: real -> string): string
  {
    if entries == [] then ""
    else entries[0].0 + "\t" + show(entries[0].1) + "\n" + MediumFile(entries[1..], show)
  }

  /** When neither a key nor a rendered value holds a newline, splitting
      the file on newlines gives back one `key<TAB>value` line per entry,
      then the empty text after the last newline. */
  lemma {:induction false} MediumFileLines(entries: seq<(string, real)>, show: real -> string)
    requires forall i :: 0 <= i < |entries| ==> '\n' !in entries[i].0 && '\n' !in show(entries[i].1)
    ensures Split(MediumFile(entries, show), '\n')
      == seq(|entries|, i requires 0 <= i < |entries| => entries[i].0 + "\t" + show(entries[i].1)) + [""]
    decreases |entries|
  {
    var lines := seq(|entries|, i requires 0 <= i < |entries| => entries[i].0 + "\t" + show(entries[i].1));
    if entries == [] {
      assert Split("", '\n') == [""];
    } else {
      var line := entries[0].0 + "\t" + show(entries[0].1);
      var rest := entries[1..];
      MediumFileLines(rest, show);
      assert '\n' !in line by {
        assert '\n' !in entries[0].0 && '\n' !in show(entries[0].1);
      }
      assert MediumFile(entries, show) == line + ['\n'] + MediumFile(rest, show);
      SplitAfterField(line, '\n', MediumFile(rest, show));
      assert lines == [line] + seq(|rest|, i requires 0 <= i < |rest| => rest[i].0 + "\t" + show(rest[i].1));
    }
  }
}
