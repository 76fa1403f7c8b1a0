/** The catalogue of column families as the configuration makes it (cfProc, config/config.c, and
    putMetadataToCFMD, config/tableMetadata.c). */
module Catalogues {
  import opened CStrings
  import opened Columns
  import opened Codec

  /** A line of the configuration: a family of a keyspace. */
  datatype Line = Line(keyspace: CStr, cfName: CStr, standard: bool)

  /** The catalogue, and the number for the next family. */
  datatype Configured = Configured(cat: Catalogue, curCFID: nat)

  /** `cfProc`: a family that is there already is refused and takes no number. */
  function Put(c: Configured, line: Line): Configured {
    var key := (line.keyspace, line.cfName);
    if line.keyspace == [] || key in c.cat then c
    else Configured(c.cat[key := Metadata(line.keyspace, line.cfName, c.curCFID, line.standard)], c.curCFID + 1)
  }

  function Configure(lines: seq<Line>): Configured {
    if lines == [] then Configured(map[], 0) else Put(Configure(lines[..|lines| - 1]), lines[|lines| - 1])
  }

  /** Whatever the configuration: the numbers are those below the number of families (`getCFCount`), each the
      number of one family. So `cfID` is an index into the header's bitmap and positions, and names one memtable. */
  lemma {:induction false} EachItsNumber(lines: seq<Line>)
    ensures var c := Configure(lines);
            && |c.cat| == c.curCFID
            && (forall k :: k in c.cat ==> c.cat[k].cfID < |c.cat| && (c.cat[k].keyspace, c.cat[k].cfName) == k)
            && (forall k, l :: k in c.cat && l in c.cat && c.cat[k].cfID == c.cat[l].cfID ==> k == l)
  {
    if lines != [] {
      EachItsNumber(lines[..|lines| - 1]);
    }
  }
}
