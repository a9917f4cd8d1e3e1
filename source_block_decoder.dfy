/** The contract of a RaptorQ source-block decoder (RFC 6330): the symbols
    received so far for one source block, the queries over them, and the
    reception of an encoding packet. The decoding algorithm itself is not
    modelled; whether an attempt succeeds is an input. */
module SourceBlockDecoding {
  import opened Exceptions
  import opened JavaTypes

  /** The largest encoding symbol identifier: the ESI is a 24-bit field
      (section 3.2 of RFC 6330). */
  const MAX_ESI: int := 0xFF_FFFF

  /** An encoding symbol identifier as an encoding packet carries it. */
  type Esi = e: int | 0 <= e <= MAX_ESI

  /** One encoding symbol of a packet: its identifier and its octets. */
  datatype EncodingSymbol = EncodingSymbol(esi: Esi, data: seq<int8>)

  /** An encoding packet: the number of the source block it belongs to and
      the encoding symbols it carries. */
  datatype EncodingPacket = EncodingPacket(sourceBlockNumber: int, symbols: seq<EncodingSymbol>)

  /** The outcome of receiving a packet. */
  datatype SourceBlockState = Incomplete | Decoded | DecodingFailure

  /** A valid source symbol identifier for a block of `k` source symbols. */
  predicate IsSourceEsi(k: nat, esi: int) {
    0 <= esi < k
  }

  /** A valid repair symbol identifier for a block of `k` source symbols. */
  predicate IsRepairEsi(k: nat, esi: int) {
    k <= esi <= MAX_ESI
  }

  predicate Ascending(s: seq<int>) {
    forall i, j :: 0 <= i < j < |s| ==> s[i] < s[j]
  }

  predicate Distinct(s: seq<int>) {
    forall i, j :: 0 <= i < j < |s| ==> s[i] != s[j]
  }

  /** The source symbol identifiers `0 .. k - 1`. */
  function SourceRange(k: nat): (s: set<int>)
    ensures |s| == k
    ensures forall e :: e in s <==> IsSourceEsi(k, e)
  {
    if k == 0 then {} else SourceRange(k - 1) + {k - 1}
  }

  /** A set of source identifiers holds all `k` of them exactly when it has
      `k` elements. */
  lemma FullIffCardinality(filled: set<int>, k: nat)
    requires forall e :: e in filled ==> IsSourceEsi(k, e)
    ensures |filled| == k <==> forall e :: IsSourceEsi(k, e) ==> e in filled
  {
    var all := SourceRange(k);
    assert filled <= all by {
      forall e | e in filled ensures e in all {
        assert IsSourceEsi(k, e);
      }
    }
    if |filled| == k {
      var rest := all - filled;
      assert all == filled + rest;
      assert |all| == |filled| + |rest|;
      assert rest == {};
    }
    if forall e :: IsSourceEsi(k, e) ==> e in filled {
      assert all <= filled by {
        forall e | e in all ensures e in filled {
          assert IsSourceEsi(k, e);
        }
      }
      assert filled == all;
    }
  }

  /** The identifiers in `[lo, k)` that are not in `filled`, ascending. */
  function MissingFrom(filled: set<int>, lo: nat, k: nat): (r: seq<int>)
    decreases k - lo
    ensures Ascending(r)
    ensures forall e :: e in r <==> lo <= e < k && e !in filled
  {
    if lo >= k then []
    else if lo in filled then MissingFrom(filled, lo + 1, k)
    else
      var rest := MissingFrom(filled, lo + 1, k);
      assert forall i :: 0 <= i < |rest| ==> lo < rest[i] by {
        forall i | 0 <= i < |rest| ensures lo < rest[i] {
          assert rest[i] in rest;
        }
      }
      [lo] + rest
  }

  /** The source identifiers carried by `symbols`. */
  function SourceEsis(k: nat, symbols: seq<EncodingSymbol>): set<int> {
    set s | s in symbols && IsSourceEsi(k, s.esi) :: s.esi
  }

  /** The repair identifiers carried by `symbols`. */
  function RepairEsis(k: nat, symbols: seq<EncodingSymbol>): set<int> {
    set s | s in symbols && IsRepairEsi(k, s.esi) :: s.esi
  }

  /** The repair list after `symbols` arrive in order: each repair identifier
      not yet listed is appended, so the list keeps the order of first
      arrival, holds no identifier twice, and extends the old list. */
  function AppendRepairs(repairs: seq<int>, k: nat, symbols: seq<EncodingSymbol>): (r: seq<int>)
    ensures |repairs| <= |r| && r[..|repairs|] == repairs
    ensures forall e :: e in r <==> e in repairs || e in RepairEsis(k, symbols)
    ensures Distinct(repairs) ==> Distinct(r)
  {
    if symbols == [] then repairs
    else
      var last := symbols[|symbols| - 1];
      var before := AppendRepairs(repairs, k, symbols[..|symbols| - 1]);
      assert symbols == symbols[..|symbols| - 1] + [last];
      if IsRepairEsi(k, last.esi) && last.esi !in before then before + [last.esi] else before
  }

  /** One symbol appends its identifier exactly when it is a repair
      identifier not listed yet. */
  lemma AppendRepairsOne(repairs: seq<int>, k: nat, s: EncodingSymbol)
    ensures AppendRepairs(repairs, k, [s]) ==
              if IsRepairEsi(k, s.esi) && s.esi !in repairs then repairs + [s.esi] else repairs
  {
    assert [s][..0] == [];
  }

  /** Symbols that arrive in two parts leave the list that the whole
      sequence leaves: with `AppendRepairsOne`, the new identifiers are
      listed in the order in which they first arrive. */
  lemma {:induction false} AppendRepairsConcat(repairs: seq<int>, k: nat, s1: seq<EncodingSymbol>, s2: seq<EncodingSymbol>)
    ensures AppendRepairs(repairs, k, s1 + s2) == AppendRepairs(AppendRepairs(repairs, k, s1), k, s2)
  {
    if s2 == [] {
      assert s1 + s2 == s1;
    } else {
      var front := s2[..|s2| - 1];
      AppendRepairsConcat(repairs, k, s1, front);
      assert (s1 + s2)[..|s1 + s2| - 1] == s1 + front;
      assert (s1 + s2)[|s1 + s2| - 1] == s2[|s2| - 1];
    }
  }

  /** A packet whose repair identifiers are all listed already leaves the
      list as it is. */
  lemma {:induction false} AppendRepairsAbsorbs(repairs: seq<int>, k: nat, symbols: seq<EncodingSymbol>)
    requires RepairEsis(k, symbols) <= set e | e in repairs
    ensures AppendRepairs(repairs, k, symbols) == repairs
  {
    if symbols != [] {
      var front := symbols[..|symbols| - 1];
      assert RepairEsis(k, front) <= RepairEsis(k, symbols) by {
        forall e | e in RepairEsis(k, front) ensures e in RepairEsis(k, symbols) {
          var s :| s in front && IsRepairEsi(k, s.esi) && s.esi == e;
          assert s in symbols;
        }
      }
      AppendRepairsAbsorbs(repairs, k, front);
      assert symbols[|symbols| - 1] in symbols;
    }
  }

  /** Receiving the same symbols twice lists no repair identifier again. */
  lemma AppendRepairsIdempotent(repairs: seq<int>, k: nat, symbols: seq<EncodingSymbol>)
    ensures AppendRepairs(AppendRepairs(repairs, k, symbols), k, symbols) == AppendRepairs(repairs, k, symbols)
  {
    AppendRepairsAbsorbs(AppendRepairs(repairs, k, symbols), k, symbols);
  }

  /** The decoder of one source block. */
  class SourceBlockDecoder {
    const sourceBlockNumber: int
    /** K, the number of source symbols of the block. */
    const numberOfSourceSymbols: nat
    /** The identifiers of the source symbols held. */
    var filled: set<int>
    /** The identifiers of the repair symbols held, in order of arrival. */
    var repairs: seq<int>

    ghost predicate Valid()
      reads this
    {
      && (forall e :: e in filled ==> IsSourceEsi(numberOfSourceSymbols, e))
      && (forall e :: e in repairs ==> IsRepairEsi(numberOfSourceSymbols, e))
      && Distinct(repairs)
    }

    /** A decoder that has received nothing yet. */
    constructor (sourceBlockNumber: int, numberOfSourceSymbols: nat)
      ensures Valid()
      ensures this.sourceBlockNumber == sourceBlockNumber && this.numberOfSourceSymbols == numberOfSourceSymbols
      ensures filled == {} && repairs == []
    {
      this.sourceBlockNumber := sourceBlockNumber;
      this.numberOfSourceSymbols := numberOfSourceSymbols;
      filled := {};
      repairs := [];
    }

    /** `containsSourceSymbol(esi)`: only source identifiers are accepted. */
    function ContainsSourceSymbol(esi: int): (r: Result<bool>)
      reads this
      ensures r.Failure? <==> !IsSourceEsi(numberOfSourceSymbols, esi)
      ensures r.Failure? ==> r.error == IllegalArgument
      ensures r.Success? ==> (r.value <==> esi in filled)
    {
      if IsSourceEsi(numberOfSourceSymbols, esi) then Success(esi in filled) else Failure(IllegalArgument)
    }

    /** `containsRepairSymbol(esi)`: only repair identifiers are accepted. */
    function ContainsRepairSymbol(esi: int): (r: Result<bool>)
      reads this
      ensures r.Failure? <==> !IsRepairEsi(numberOfSourceSymbols, esi)
      ensures r.Failure? ==> r.error == IllegalArgument
      ensures r.Success? ==> (r.value <==> esi in repairs)
    {
      if IsRepairEsi(numberOfSourceSymbols, esi) then Success(esi in repairs) else Failure(IllegalArgument)
    }

    /** `isSourceBlockDecoded()`: the block is decoded when it holds all of
      its source symbols; the count of held source symbols decides it. */
    predicate IsSourceBlockDecoded()
      reads this
      requires Valid()
      ensures IsSourceBlockDecoded() <==>
                forall e :: IsSourceEsi(numberOfSourceSymbols, e) ==> ContainsSourceSymbol(e) == Success(true)
    {
      FullIffCardinality(filled, numberOfSourceSymbols);
      |filled| == numberOfSourceSymbols
    }

    /** `missingSourceSymbols()`: the source identifiers not held, ascending. */
    function MissingSourceSymbols(): (r: seq<int>)
      reads this
      ensures Ascending(r)
      ensures forall e :: e in r <==> ContainsSourceSymbol(e) == Success(false)
    {
      MissingFrom(filled, 0, numberOfSourceSymbols)
    }

    /** `availableRepairSymbols()`: the repair identifiers held, in order of
      arrival, or nothing once the block is decoded. */
    function AvailableRepairSymbols(): (r: seq<int>)
      reads this
      requires Valid()
      ensures Distinct(r)
      ensures IsSourceBlockDecoded() ==> r == []
      ensures !IsSourceBlockDecoded() ==> r == repairs
      ensures forall e :: e in r ==> ContainsRepairSymbol(e) == Success(true)
    {
      if IsSourceBlockDecoded() then [] else repairs
    }

    /** The block is decoded exactly when no source symbol is missing. */
    lemma DecodedIffNothingMissing()
      requires Valid()
      ensures IsSourceBlockDecoded() <==> MissingSourceSymbols() == []
    {
      var missing := MissingSourceSymbols();
      if missing != [] {
        assert missing[0] in missing;
      }
      if !IsSourceBlockDecoded() {
        var e :| IsSourceEsi(numberOfSourceSymbols, e) && ContainsSourceSymbol(e) != Success(true);
        assert e in missing;
      }
    }

    /** Stores the symbols in order: a source identifier joins `filled`, a
      repair identifier not yet listed is appended to `repairs`. */
    method StoreSymbols(symbols: seq<EncodingSymbol>)
      requires Valid()
      modifies this`filled, this`repairs
      ensures Valid()
      ensures filled == old(filled) + SourceEsis(numberOfSourceSymbols, symbols)
      ensures repairs == AppendRepairs(old(repairs), numberOfSourceSymbols, symbols)
    {
      var k := numberOfSourceSymbols;
      for i := 0 to |symbols|
        invariant Valid()
        invariant filled == old(filled) + SourceEsis(k, symbols[..i])
        invariant repairs == AppendRepairs(old(repairs), k, symbols[..i])
      {
        var s := symbols[i];
        assert symbols[..i + 1] == symbols[..i] + [s];
        if s.esi < k {
          filled := filled + {s.esi};
        } else if s.esi !in repairs {
          repairs := repairs + [s.esi];
        }
      }
      assert symbols[..|symbols|] == symbols;
    }

    /** `putEncodingPacket(packet)`. A packet of another block throws and
      changes nothing. Otherwise every symbol is stored: source identifiers
      join `filled`, new repair identifiers are appended in arrival order.
      Then the block is `Decoded` if all source symbols are held; else, with
      fewer than K symbols in all, `Incomplete`; else a decoding attempt runs,
      whose success `decodes` stands for: on success every source symbol is
      recovered and the result is `Decoded`, otherwise `DecodingFailure`. */
    method PutEncodingPacket(packet: EncodingPacket, decodes: bool) returns (r: Result<SourceBlockState>)
      requires Valid()
      modifies this
      ensures Valid()
      ensures r.Failure? <==> packet.sourceBlockNumber != sourceBlockNumber
      ensures r.Failure? ==> r.error == IllegalArgument && filled == old(filled) && repairs == old(repairs)
      ensures r.Success? ==> repairs == AppendRepairs(old(repairs), numberOfSourceSymbols, packet.symbols)
      ensures r.Success? ==> old(filled) + SourceEsis(numberOfSourceSymbols, packet.symbols) <= filled
      ensures r.Success? ==> filled == old(filled) + SourceEsis(numberOfSourceSymbols, packet.symbols)
                                    || filled == SourceRange(numberOfSourceSymbols)
      ensures r.Success? ==> forall s :: s in packet.symbols ==>
                if IsSourceEsi(numberOfSourceSymbols, s.esi) then ContainsSourceSymbol(s.esi) == Success(true)
                else ContainsRepairSymbol(s.esi) == Success(true)
      ensures r.Success? ==> (r.value == Decoded <==> IsSourceBlockDecoded())
      ensures r.Success? ==> (r.value == Incomplete <==>
                !IsSourceBlockDecoded() && |filled| + |repairs| < numberOfSourceSymbols)
      ensures r.Success? ==> (r.value == Incomplete <==>
                |old(filled) + SourceEsis(numberOfSourceSymbols, packet.symbols)| + |repairs| < numberOfSourceSymbols)
      ensures r.Success? && r.value == DecodingFailure ==> !decodes
      ensures r.Success? && !decodes ==> filled == old(filled) + SourceEsis(numberOfSourceSymbols, packet.symbols)
      ensures r.Success? && r.value == Incomplete ==> filled == old(filled) + SourceEsis(numberOfSourceSymbols, packet.symbols)
      ensures forall e :: e in MissingSourceSymbols() ==> e in old(MissingSourceSymbols())
      ensures old(IsSourceBlockDecoded()) ==> IsSourceBlockDecoded()
    {
      if packet.sourceBlockNumber != sourceBlockNumber {
        return Failure(IllegalArgument);
      }
      var k := numberOfSourceSymbols;
      StoreSymbols(packet.symbols);
      ghost var stored := filled;
      forall s | s in packet.symbols
        ensures if IsSourceEsi(k, s.esi) then s.esi in stored else s.esi in repairs
      {
        if IsSourceEsi(k, s.esi) {
          assert s.esi in SourceEsis(k, packet.symbols);
        } else {
          assert s.esi in RepairEsis(k, packet.symbols);
        }
      }
      FullIffCardinality(filled, k);
      if |filled| == k {
        r := Success(Decoded);
      } else if |filled| + |repairs| < k {
        r := Success(Incomplete);
      } else if decodes {
        assert filled <= SourceRange(k) by {
          forall e | e in filled ensures e in SourceRange(k) {
            assert IsSourceEsi(k, e);
          }
        }
        filled := SourceRange(k);
        r := Success(Decoded);
      } else {
        r := Success(DecodingFailure);
      }
      FullIffCardinality(filled, k);
    }
  }
}
