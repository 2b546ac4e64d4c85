/** What `_clean_and_extract_base_features` promises about the table it changes:
    which cells it derives and from what, that nothing else changes, when it
    raises, what it leaves behind when it does, and that it does not care how
    the header was capitalised. */
module CleaningProperties {
  import opened Wrappers
  import opened Text
  import opened Numbers
  import opened Frames
  import opened Preprocessing

  // ---------------------------------------------------------------- one cell

  /** `'<n>GB'` becomes the integer `n`, for every `n` numpy's int64 holds. */
  lemma RamCellRoundTrip(n: nat)
    requires n <= Int64Max
    ensures ConvertCell(RamGb, Text(NatText(n) + "GB")) == Success(Int(n))
  {
    RemoveTrailing(NatText(n), "GB");
    ParseIntNatText(n);
  }

  /** An integer beyond int64 is an overflow, not a wrapped or clipped value. */
  lemma RamCellOverflow(n: nat)
    requires n > Int64Max
    ensures ConvertCell(RamGb, Text(NatText(n) + "GB")) == Failure(OutOfRange(NatText(n)))
  {
    RemoveTrailing(NatText(n), "GB");
    ParseIntNatText(n);
  }

  /** `'<a>.<b>kg'` becomes the decimal number `a.b`. */
  lemma WeightCellRoundTrip(a: string, b: string)
    requires AllDigits(a) && AllDigits(b) && |a| + |b| > 0
    ensures ConvertCell(WeightKg, Text(a + "." + b + "kg"))
         == Success(Float(DecimalOf(a, b)))
  {
    var x := a + "." + b;
    assert RemoveAll(x + "kg", "kg") == x by {
      forall i | 0 <= i < |x| ensures x[i] != 'k' {
        if i < |a| {
          assert x[i] == a[i];
        } else if i > |a| {
          assert x[i] == b[i - |a| - 1];
        }
      }
      RemoveTrailing(x, "kg");
    }
    ParseFloatDecimal(a, b);
    WeightCellOf(x + "kg", x);
  }

  /** A weight cell whose text, with every `kg` removed, is a float literal. */
  lemma WeightCellOf(s: string, t: string)
    requires RemoveAll(s, "kg") == t && ParseFloat(t).Some?
    ensures ConvertCell(WeightKg, Text(s)) == Success(Float(ParseFloat(t).value))
  {
  }

  /** A trailing zero after the point does not change a weight: `'2.50kg'` and `'2.5kg'` agree. */
  lemma WeightCellTrailingZero(a: string, b: string)
    requires AllDigits(a) && AllDigits(b) && |a| + |b| > 0
    ensures ConvertCell(WeightKg, Text(a + "." + b + "0kg")) == ConvertCell(WeightKg, Text(a + "." + b + "kg"))
  {
    assert a + "." + b + "0kg" == a + "." + (b + "0") + "kg";
    DecimalOfTrailingZero(a, b);
    WeightCellRoundTrip(a, b);
    WeightCellRoundTrip(a, b + "0");
  }

  /** `'<n>kg'` becomes the number `n`. */
  lemma WeightCellWhole(n: nat)
    ensures ConvertCell(WeightKg, Text(NatText(n) + "kg")) == Success(Float(n as real))
  {
    RemoveTrailing(NatText(n), "kg");
    ParseIntNatText(n);
    ParseFloatExtendsParseInt(NatText(n));
  }

  /** In the modelled decimal grammar, a letter left after removing the unit makes the cell fail
      with that text; it is never read as 0. (For a weight cell Python's `float()` also reads
      exponents, `inf` and `nan`, which the grammar leaves out.) */
  lemma CellWithLetterFails(e: Extraction, s: string, i: int)
    requires 0 <= i < |RemoveAll(s, e.Unit())| && IsLetter(RemoveAll(s, e.Unit())[i])
    ensures ConvertCell(e, Text(s)) == Failure(InvalidLiteral(RemoveAll(s, e.Unit())))
  {
    ParseRejectsLetter(RemoveAll(s, e.Unit()), i);
  }

  /** White space around the number survives the unit's removal and `int()` skips it:
      `w1 + str(n) + w2 + 'GB'` becomes `n`, for every `n` in int64. */
  lemma RamCellPadded(w1: string, n: nat, w2: string)
    requires forall j :: 0 <= j < |w1| ==> IsSpace(w1[j])
    requires forall j :: 0 <= j < |w2| ==> IsSpace(w2[j])
    requires n <= Int64Max
    ensures ConvertCell(RamGb, Text(w1 + NatText(n) + w2 + "GB")) == Success(Int(n))
  {
    var x := w1 + NatText(n) + w2;
    assert forall i :: 0 <= i < |x| ==> x[i] != 'G' by {
      forall i | 0 <= i < |x| ensures x[i] != 'G' {
        if i < |w1| {
          assert x[i] == w1[i];
        } else if i < |w1| + |NatText(n)| {
          assert x[i] == NatText(n)[i - |w1|];
        } else {
          assert x[i] == w2[i - |w1| - |NatText(n)|];
        }
      }
    }
    RemoveTrailing(x, "GB");
    ParseIntPadded(w1, n, w2);
  }

  /** `'8 GB'`, the usual way of writing a size, reads as 8. */
  lemma RamCellWithSpace()
    ensures ConvertCell(RamGb, Text("8 GB")) == Success(Int(8))
  {
    assert NatText(8) == "8";
    RamCellPadded("", 8, " ");
    assert "" + "8" + " " + "GB" == "8 GB";
  }

  /** An information separator such as U+001C is not white space to `int()`: `'\x1c8GB'` is refused. */
  lemma RamCellSeparatorFails()
    ensures ConvertCell(RamGb, Text("\U{1c}8GB")) == Failure(InvalidLiteral("\U{1c}8"))
  {
    RemoveTrailing("\U{1c}8", "GB");
    assert "\U{1c}8" + "GB" == "\U{1c}8GB";
    ParseRefusesSeparator();
  }

  /** The unit is removed wherever it stands, not only at the end: `'1GB6'` reads as 16. */
  lemma RamUnitRemovedAnywhere()
    ensures ConvertCell(RamGb, Text("1GB6")) == Success(Int(16))
  {
    assert RemoveAll("1GB6", "GB") == "16" by {
      assert !StartsWith("1GB6", "GB") && "1GB6"[1..] == "GB6";
      assert StartsWith("GB6", "GB") && "GB6"[2..] == "6";
      assert !StartsWith("6", "GB") && "6"[1..] == [];
    }
    assert NatText(16) == "16" by {
      assert NatText(1) == "1";
    }
    ParseIntNatText(16);
  }

  /** The unit is matched in its exact case: `'8gb'` keeps its letters and is refused. */
  lemma RamUnitIsCaseSensitive()
    ensures ConvertCell(RamGb, Text("8gb")) == Failure(InvalidLiteral("8gb"))
  {
    RemoveAllIsCaseSensitive();
    CellWithLetterFails(RamGb, "8gb", 1);
  }

  /** An empty cell, or one holding only the unit, leaves the empty text, which neither
      `int` nor `float` accepts. */
  lemma UnitAloneFails()
    ensures ConvertCell(RamGb, Text("")) == Failure(InvalidLiteral(""))
    ensures ConvertCell(RamGb, Text("GB")) == Failure(InvalidLiteral(""))
    ensures ConvertCell(WeightKg, Text("kg")) == Failure(InvalidLiteral(""))
  {
    assert RemoveAll("GB", "GB") == [] by {
      assert StartsWith("GB", "GB") && "GB"[2..] == [];
    }
    assert RemoveAll("kg", "kg") == [] by {
      assert StartsWith("kg", "kg") && "kg"[2..] == [];
    }
    assert ParseFloat("") == None;
  }

  /** `'2.5kg'` reads as 2.5. */
  lemma WeightCellExample()
    ensures ConvertCell(WeightKg, Text("2.5kg")) == Success(Float(2.5))
  {
    assert "2" + "." + "5" + "kg" == "2.5kg";
    assert DecimalOf("2", "5") == 2.5 by {
      assert DigitsValue("2") == 2 && DigitsValue("5") == 5 by {
        assert "2"[..0] == [] && "5"[..0] == [];
      }
      assert Pow10(1) == 10;
    }
    WeightCellRoundTrip("2", "5");
  }

  // ---------------------------------------------------------------- the whole cleaner

  /** A header made of lower-cased entries followed by derived names is lower case throughout. */
  lemma LoweredHeaderIsLower(original: seq<string>, names: seq<string>)
    requires |original| <= |names|
    requires forall j :: 0 <= j < |original| ==> names[j] == LowerNames(original)[j]
    requires forall j :: |original| <= j < |names| ==> names[j] == "ram_gb" || names[j] == "weight_kg"
    ensures forall j :: 0 <= j < |names| ==> IsLowerText(names[j])
  {
    assert IsLowerText("ram_gb") && IsLowerText("weight_kg");
    forall j | 0 <= j < |original| ensures IsLowerText(names[j]) {
      LowerIsLower(original[j]);
    }
  }

  /** Every header entry of the table left behind is lower case, whatever the outcome. */
  lemma CleanHeaderIsLower(f: Frame)
    requires WellFormed(f)
    ensures forall j :: 0 <= j < |Clean(f).frame.names| ==> IsLowerText(Clean(f).frame.names[j])
  {
    LoweredHeaderIsLower(f.names, Clean(f).frame.names);
  }

  /** Whatever the `weight` line does, the `ram_gb` columns it leaves are those the `ram` line wrote. */
  lemma RamGbSurvivesWeightLine(f: Frame)
    requires WellFormed(f) && Extract(LowerHeader(f), RamGb).Success?
    ensures var withRam := Extract(LowerHeader(f), RamGb).value;
      && "ram_gb" in Clean(f).frame.names
      && forall j :: 0 <= j < |Clean(f).frame.names| && Clean(f).frame.names[j] == "ram_gb" ==>
           j < |withRam.names| && withRam.names[j] == "ram_gb" && Clean(f).frame.columns[j] == withRam.columns[j]
  {
    var withRam := Extract(LowerHeader(f), RamGb).value;
    var weighed := Extract(withRam, WeightKg);
    if weighed.Success? {
      assert Clean(f).frame == weighed.value;
      GrowsKeepsOther(withRam, weighed.value, "weight_kg", "ram_gb");
    } else {
      assert Clean(f).frame == withRam;
    }
  }

  /** After the `ram` line has run, and whatever the `weight` line then does, every `ram_gb`
      cell is the conversion of the same row of the one column whose name lower-cases to `ram`. */
  lemma CleanRamGb(f: Frame, jr: int)
    requires WellFormed(f) && UniqueAt(LowerNames(f.names), "ram", jr)
    requires Extractable(LowerHeader(f), RamGb)
    ensures "ram_gb" in Clean(f).frame.names
    ensures forall j, k :: 0 <= j < |Clean(f).frame.names| && Clean(f).frame.names[j] == "ram_gb" && 0 <= k < f.height ==>
      Clean(f).frame.columns[j][k] == ConvertCell(RamGb, f.columns[jr][k]).value
  {
    assert Lookup(LowerHeader(f), "ram") == Success(f.columns[jr]);
    RamGbSurvivesWeightLine(f);
  }

  /** The `weight` line looks up the same column whether or not `ram_gb` has been added. */
  lemma WeightLookupAfterRam(f: Frame)
    requires WellFormed(f) && Extract(LowerHeader(f), RamGb).Success?
    ensures Lookup(Extract(LowerHeader(f), RamGb).value, "weight") == Lookup(LowerHeader(f), "weight")
  {
    LookupOtherAfterSet(LowerHeader(f), Extract(LowerHeader(f), RamGb).value, "ram_gb", "weight");
  }

  /** On success the table is exactly the `weight` line run on what the `ram` line left:
      the two derived columns come in that order, each added once or overwritten in place. */
  lemma CleanSuccessFrame(f: Frame)
    requires WellFormed(f) && Clean(f).error == None
    ensures Extractable(LowerHeader(f), RamGb)
    ensures Extract(Extract(LowerHeader(f), RamGb).value, WeightKg) == Success(Clean(f).frame)
  {
    WeightLookupAfterRam(f);
  }

  /** A successful line writes, into every column with the target name, each row's conversion of the source. */
  lemma ExtractCells(g: Frame, e: Extraction, col: seq<Cell>, h: Frame)
    requires WellFormed(g) && Extract(g, e) == Success(h) && Lookup(g, e.Source()) == Success(col)
    ensures e.Target() in h.names
    ensures forall j, k :: 0 <= j < |h.names| && h.names[j] == e.Target() && 0 <= k < g.height ==>
      h.columns[j][k] == ConvertCell(e, col[k]).value
  {
  }

  /** On success, every `weight_kg` cell is the conversion of the same row of the one column
      whose name lower-cases to `weight`. */
  lemma CleanWeightKg(f: Frame, jw: int)
    requires WellFormed(f) && UniqueAt(LowerNames(f.names), "weight", jw)
    requires Clean(f).error == None
    ensures "weight_kg" in Clean(f).frame.names
    ensures forall j, k :: 0 <= j < |Clean(f).frame.names| && Clean(f).frame.names[j] == "weight_kg" && 0 <= k < f.height ==>
      Clean(f).frame.columns[j][k] == ConvertCell(WeightKg, f.columns[jw][k]).value
  {
    var withRam := Extract(LowerHeader(f), RamGb).value;
    var col := f.columns[jw];
    CleanSuccessFrame(f);
    assert Lookup(withRam, "weight") == Success(col) by {
      assert Lookup(LowerHeader(f), "weight") == Success(col);
      WeightLookupAfterRam(f);
    }
    assert withRam.height == f.height;
    ExtractCells(withRam, WeightKg, col, Clean(f).frame);
  }

  /** No rollback: when the `weight` line raises, the caller's table keeps its lower-cased
      header and the `ram_gb` column the `ram` line wrote. */
  lemma CleanNoRollback(f: Frame)
    requires WellFormed(f)
    requires Extractable(LowerHeader(f), RamGb) && !Extractable(LowerHeader(f), WeightKg)
    ensures Clean(f).error.Some?
    ensures Clean(f).frame == Extract(LowerHeader(f), RamGb).value
    ensures "ram_gb" in Clean(f).frame.names
    ensures Clean(f).error == Some(Extract(Extract(LowerHeader(f), RamGb).value, WeightKg).error)
  {
    WeightLookupAfterRam(f);
    assert !Extractable(Extract(LowerHeader(f), RamGb).value, WeightKg);
  }

  /** A name no header entry lower-cases to is not found in the lower-cased table. */
  lemma NotFoundAfterLowering(f: Frame, name: string)
    requires WellFormed(f)
    requires forall j :: 0 <= j < |f.names| ==> Lower(f.names[j]) != name
    ensures Lookup(LowerHeader(f), name) == Failure(ColumnNotFound(name))
  {
    assert name !in LowerHeader(f).names;
  }

  /** With no column whose name lower-cases to `ram`, the call raises `KeyError('ram')`
      after lower-casing the header and before deriving anything. */
  lemma CleanMissingRam(f: Frame)
    requires WellFormed(f)
    requires forall j :: 0 <= j < |f.names| ==> Lower(f.names[j]) != "ram"
    ensures Clean(f) == Run(LowerHeader(f), Some(ColumnNotFound("ram")))
  {
    NotFoundAfterLowering(f, "ram");
  }

  /** A `ram` cell that does not convert stops the call at its row: the error is that cell's,
      and the table is left exactly as lower-casing made it, with nothing derived. */
  lemma CleanFirstBadRamCell(f: Frame, jr: int, k: int)
    requires WellFormed(f) && UniqueAt(LowerNames(f.names), "ram", jr)
    requires !StrRefused(f.columns[jr])
    requires 0 <= k < f.height && ConvertCell(RamGb, f.columns[jr][k]).Failure?
    requires forall i :: 0 <= i < k ==> ConvertCell(RamGb, f.columns[jr][i]).Success?
    ensures Clean(f) == Run(LowerHeader(f), Some(ConvertCell(RamGb, f.columns[jr][k]).error))
  {
    var col := f.columns[jr];
    assert Lookup(LowerHeader(f), "ram") == Success(col);
    var converted := ConvertColumn(RamGb, col);
    assert converted.Failure?;
    var first :| FirstFailure(Converted(RamGb, col), first) && converted.error == ConvertCell(RamGb, col[first]).error;
    assert first == k;
  }

  /** Once `ram_gb` is derived, a failing `weight` lookup is the error the call raises,
      and the frame keeps the new `ram_gb` column. */
  lemma CleanStopsAtWeight(f: Frame)
    requires WellFormed(f) && Extractable(LowerHeader(f), RamGb)
    requires Lookup(LowerHeader(f), "weight").Failure?
    ensures Clean(f) == Run(Extract(LowerHeader(f), RamGb).value, Some(Lookup(LowerHeader(f), "weight").error))
  {
    WeightLookupAfterRam(f);
  }

  /** When row `k` is the first `weight` cell that does not convert, the call raises that cell's
      error, and the table keeps the lower-cased header and the `ram_gb` column. */
  lemma CleanFirstBadWeightCell(f: Frame, jw: int, k: int)
    requires WellFormed(f) && Extractable(LowerHeader(f), RamGb)
    requires UniqueAt(LowerNames(f.names), "weight", jw)
    requires !StrRefused(f.columns[jw])
    requires 0 <= k < f.height && ConvertCell(WeightKg, f.columns[jw][k]).Failure?
    requires forall i :: 0 <= i < k ==> ConvertCell(WeightKg, f.columns[jw][i]).Success?
    ensures Clean(f) == Run(Extract(LowerHeader(f), RamGb).value, Some(ConvertCell(WeightKg, f.columns[jw][k]).error))
  {
    var col := f.columns[jw];
    var withRam := Extract(LowerHeader(f), RamGb).value;
    assert Lookup(LowerHeader(f), "weight") == Success(col);
    WeightLookupAfterRam(f);
    var converted := ConvertColumn(WeightKg, col);
    assert converted.Failure?;
    var first :| FirstFailure(Converted(WeightKg, col), first) && converted.error == ConvertCell(WeightKg, col[first]).error;
    assert first == k;
    assert Extract(withRam, WeightKg) == Failure(ConvertCell(WeightKg, col[k]).error);
  }

  /** A `weight` column `.str` refuses (no string in it at all) raises the `.str` error,
      after `ram_gb` has been written. */
  lemma CleanWeightNotString(f: Frame, jw: int)
    requires WellFormed(f) && Extractable(LowerHeader(f), RamGb)
    requires UniqueAt(LowerNames(f.names), "weight", jw)
    requires StrRefused(f.columns[jw])
    ensures Clean(f) == Run(Extract(LowerHeader(f), RamGb).value, Some(NotAStringColumn("weight")))
  {
    var withRam := Extract(LowerHeader(f), RamGb).value;
    assert Lookup(LowerHeader(f), "weight") == Success(f.columns[jw]);
    WeightLookupAfterRam(f);
    assert Extract(withRam, WeightKg) == Failure(NotAStringColumn("weight"));
  }

  /** A missing `weight` column is only noticed after `ram_gb` has been written. */
  lemma CleanMissingWeight(f: Frame)
    requires WellFormed(f) && Extractable(LowerHeader(f), RamGb)
    requires forall j :: 0 <= j < |f.names| ==> Lower(f.names[j]) != "weight"
    ensures Clean(f).error == Some(ColumnNotFound("weight"))
    ensures "ram_gb" in Clean(f).frame.names
  {
    NotFoundAfterLowering(f, "weight");
    CleanStopsAtWeight(f);
  }

  /** Headers equal up to ASCII case (`Ram`, `RAM`, `ram`) give exactly the same call. */
  lemma CleanIgnoresHeaderCase(f: Frame, g: Frame)
    requires WellFormed(f) && WellFormed(g)
    requires f.columns == g.columns && f.height == g.height && |f.names| == |g.names|
    requires forall j :: 0 <= j < |f.names| ==> SameIgnoringCase(f.names[j], g.names[j])
    ensures Clean(f) == Clean(g)
  {
    assert LowerHeader(f) == LowerHeader(g);
  }

  /** Lower-casing is idempotent, so a header that is already lower case keeps its names. */
  lemma CleanKeepsLowerHeader(f: Frame)
    requires WellFormed(f)
    requires forall j :: 0 <= j < |f.names| ==> IsLowerText(f.names[j])
    ensures Clean(f).frame.names[..|f.names|] == f.names
  {
    forall j | 0 <= j < |f.names| ensures Clean(f).frame.names[j] == f.names[j] {
      LowerFixedIff(f.names[j]);
    }
  }

  /** A header whose entries are all lower case is left as it is. */
  lemma LowerHeaderOfLower(f: Frame)
    requires forall j :: 0 <= j < |f.names| ==> IsLowerText(f.names[j])
    ensures LowerHeader(f) == f
  {
    forall j | 0 <= j < |f.names| ensures LowerNames(f.names)[j] == f.names[j] {
      LowerFixedIff(f.names[j]);
    }
  }

  /** A line whose target column already holds the conversion of its source column
      rewrites the table to itself. */
  lemma ExtractRewritesSame(g: Frame, e: Extraction)
    requires WellFormed(g) && Extractable(g, e) && e.Target() in g.names
    requires forall j, k :: 0 <= j < |g.names| && g.names[j] == e.Target() && 0 <= k < g.height ==>
      g.columns[j][k] == ConvertCell(e, Lookup(g, e.Source()).value[k]).value
    ensures Extract(g, e) == Success(g)
  {
    var h := Extract(g, e).value;
    assert h.names == g.names && h.height == g.height;
    forall j | 0 <= j < |g.names| ensures h.columns[j] == g.columns[j] {
      if g.names[j] == e.Target() {
        assert |h.columns[j]| == |g.columns[j]|;
        forall k | 0 <= k < g.height ensures h.columns[j][k] == g.columns[j][k] {
          assert h.columns[j][k] == ConvertCell(e, Lookup(g, e.Source()).value[k]).value;
        }
      }
    }
    assert h.columns == g.columns;
  }

  /** Cleaning the table a successful call produced succeeds again and changes nothing. */
  lemma CleanIdempotent(f: Frame)
    requires WellFormed(f) && Clean(f).error == None
    ensures Clean(Clean(f).frame) == Clean(f)
  {
    var lowered := LowerHeader(f);
    var withRam := Extract(lowered, RamGb).value;
    var g := Extract(withRam, WeightKg).value;
    assert Clean(f) == Run(g, None) by {
      WeightLookupAfterRam(f);
    }
    assert LowerHeader(g) == g by {
      CleanHeaderIsLower(f);
      LowerHeaderOfLower(g);
    }
    // The `ram` line finds the same column and writes what `ram_gb` already holds.
    assert Extract(g, RamGb) == Success(g) by {
      LookupOtherAfterSet(lowered, withRam, "ram_gb", "ram");
      LookupOtherAfterSet(withRam, g, "weight_kg", "ram");
      GrowsKeepsOther(withRam, g, "weight_kg", "ram_gb");
      ExtractRewritesSame(g, RamGb);
    }
    // The `weight` line likewise.
    assert Extract(g, WeightKg) == Success(g) by {
      LookupOtherAfterSet(withRam, g, "weight_kg", "weight");
      ExtractRewritesSame(g, WeightKg);
    }
  }
}
