/** Brazilian licence plates: cleaning (drop every character outside `[a-zA-Z0-9]`,
    upper-case the rest), the two accepted forms — the old ABC1234 and the Mercosur
    ABC1D23 — the display form with a hyphen for old plates, and the vehicle form's
    save, which checks the form before looking for another vehicle with the same plate. */
module Plates {
  import opened Prelude
  import opened Types

  /** `plate.replace(/[^a-zA-Z0-9]/g, '').toUpperCase()`. */
  function Clean(p: string): (r: string)
    ensures |r| <= |p|
    ensures forall i :: 0 <= i < |r| ==> IsUpper(r[i]) || IsDigit(r[i])
  {
    if |p| == 0 then []
    else (if IsAlnum(p[0]) then [UpperChar(p[0])] else []) + Clean(p[1..])
  }

  /** Upper-case letters and digits only: what cleaning leaves. */
  predicate IsCleaned(s: string) {
    forall i :: 0 <= i < |s| ==> IsUpper(s[i]) || IsDigit(s[i])
  }

  /** `/^[A-Z]{3}\d{4}$/`. */
  predicate IsOldForm(s: string) {
    |s| == 7 && IsUpper(s[0]) && IsUpper(s[1]) && IsUpper(s[2])
    && IsDigit(s[3]) && IsDigit(s[4]) && IsDigit(s[5]) && IsDigit(s[6])
  }

  /** `/^[A-Z]{3}\d[A-Z]\d{2}$/`. */
  predicate IsMercosurForm(s: string) {
    |s| == 7 && IsUpper(s[0]) && IsUpper(s[1]) && IsUpper(s[2])
    && IsDigit(s[3]) && IsUpper(s[4]) && IsDigit(s[5]) && IsDigit(s[6])
  }

  /** `isValidPlate`: the two forms differ only in the fifth character, so a plate is
      valid exactly when its cleaned form is three letters, a digit, a letter or a
      digit, and two digits; it therefore has at least seven characters. */
  function IsValidPlate(p: string): (b: bool)
    ensures b <==> var c := Clean(p);
                   && |c| == 7 && IsUpper(c[0]) && IsUpper(c[1]) && IsUpper(c[2]) && IsDigit(c[3])
                   && (IsUpper(c[4]) || IsDigit(c[4])) && IsDigit(c[5]) && IsDigit(c[6])
    ensures b ==> 7 <= |p|
  {
    IsOldForm(Clean(p)) || IsMercosurForm(Clean(p))
  }

  /** `formatPlate`: the cleaned plate, with a hyphen after the letters when it has the
      old form. */
  function FormatPlate(p: string): (r: string)
    ensures IsOldForm(Clean(p)) ==> |r| == 8 && r[3] == '-' && r[..3] + r[4..] == Clean(p)
    ensures !IsOldForm(Clean(p)) ==> r == Clean(p)
    ensures '-' in r <==> IsOldForm(Clean(p))
    ensures forall i :: 0 <= i < |r| ==> IsUpper(r[i]) || IsDigit(r[i]) || (r[i] == '-' && i == 3)
  {
    var c := Clean(p);
    if IsOldForm(c) then
      var r := c[..3] + "-" + c[3..];
      assert r[..3] + r[4..] == c;
      r
    else c
  }

  // ---------------------------------------------------------------------------
  // Cleaning

  lemma {:induction false} CleanAppend(a: string, b: string)
    ensures Clean(a + b) == Clean(a) + Clean(b)
    decreases |a|
  {
    if |a| == 0 {
      assert a + b == b;
    } else {
      assert (a + b)[1..] == a[1..] + b;
      CleanAppend(a[1..], b);
    }
  }

  /** A cleaned string is its own cleaning. */
  lemma {:induction false} CleanFixes(s: string)
    requires IsCleaned(s)
    ensures Clean(s) == s
    decreases |s|
  {
    if |s| > 0 {
      CleanFixes(s[1..]);
      assert s == [s[0]] + s[1..];
    }
  }

  /** Cleaning is idempotent. */
  lemma CleanIdempotent(p: string)
    ensures Clean(Clean(p)) == Clean(p)
  {
    CleanFixes(Clean(p));
  }

  /** Cleaning ignores case: a plate and its lower-case spelling clean alike. */
  lemma {:induction false} CleanIgnoresCase(p: string)
    ensures Clean(Lower(p)) == Clean(p)
    decreases |p|
  {
    if |p| > 0 {
      CleanIgnoresCase(p[1..]);
      assert Lower(p)[1..] == Lower(p[1..]);
      var c := p[0];
      assert IsAlnum(LowerChar(c)) <==> IsAlnum(c);
      assert IsAlnum(c) ==> UpperChar(LowerChar(c)) == UpperChar(c);
    }
  }

  /** A string with no character of `[a-zA-Z0-9]` cleans to nothing. */
  lemma {:induction false} CleanOfSeparators(sep: string)
    requires forall i :: 0 <= i < |sep| ==> !IsAlnum(sep[i])
    ensures Clean(sep) == []
    decreases |sep|
  {
    if |sep| > 0 {
      CleanOfSeparators(sep[1..]);
    }
  }

  /** Characters outside `[a-zA-Z0-9]` between two parts are dropped. */
  lemma CleanSkipsSeparators(a: string, sep: string, b: string)
    requires forall i :: 0 <= i < |sep| ==> !IsAlnum(sep[i])
    ensures Clean(a + sep + b) == Clean(a + b)
  {
    CleanAppend(a + sep, b);
    CleanAppend(a, sep);
    CleanAppend(a, b);
    CleanOfSeparators(sep);
    assert Clean(a) + [] == Clean(a);
  }

  /** Validity ignores case and separators: "abc-1234" and "ABC1234" get the same
      verdict, as do any plate and its lower-case spelling or its parts with
      separators in between. */
  lemma ValidityIgnoresCaseAndSeparators(p: string, a: string, sep: string, b: string)
    requires forall i :: 0 <= i < |sep| ==> !IsAlnum(sep[i])
    ensures IsValidPlate(Lower(p)) <==> IsValidPlate(p)
    ensures IsValidPlate(a + sep + b) <==> IsValidPlate(a + b)
  {
    CleanIgnoresCase(p);
    CleanSkipsSeparators(a, sep, b);
  }

  // ---------------------------------------------------------------------------
  // Formatting

  /** Formatting keeps the plate's cleaning. */
  lemma CleanOfFormat(p: string)
    ensures Clean(FormatPlate(p)) == Clean(p)
  {
    var c := Clean(p);
    CleanFixes(c);
    if IsOldForm(c) {
      var r := FormatPlate(p);
      assert r == c[..3] + "-" + c[3..];
      CleanAppend(c[..3] + "-", c[3..]);
      CleanAppend(c[..3], "-");
      assert "-"[1..] == [];
      CleanFixes(c[..3]);
      CleanFixes(c[3..]);
      assert c[..3] + c[3..] == c;
    }
  }

  /** `formatPlate(formatPlate(p)) == formatPlate(p)`. */
  lemma FormatIdempotent(p: string)
    ensures FormatPlate(FormatPlate(p)) == FormatPlate(p)
  {
    CleanOfFormat(p);
  }

  /** `isValidPlate(formatPlate(p)) == isValidPlate(p)`. */
  lemma FormatKeepsValidity(p: string)
    ensures IsValidPlate(FormatPlate(p)) <==> IsValidPlate(p)
  {
    CleanOfFormat(p);
  }

  /** The formatted plate holds at most one hyphen. */
  lemma AtMostOneHyphen(p: string)
    ensures forall i, j :: 0 <= i < j < |FormatPlate(p)| ==> !(FormatPlate(p)[i] == '-' && FormatPlate(p)[j] == '-')
  {
  }

  // ---------------------------------------------------------------------------
  // The vehicle form

  datatype SaveOutcome = InvalidPlate | DuplicatePlate | Saved(vehicle: Vehicle)

  /** Another vehicle (a different id) carries the same cleaned plate. */
  predicate PlateTaken(vehicles: seq<Vehicle>, plate: string, id: string) {
    exists i :: 0 <= i < |vehicles| && Clean(vehicles[i].plate) == plate && vehicles[i].id != id
  }

  /** `handleSubmit` of the vehicle form: a plate of neither form is refused; then,
      when the vehicle list is at hand, a plate another vehicle already has is
      refused; otherwise the form is saved with its plate cleaned. */
  function SubmitVehicle(form: Vehicle, vehicles: Option<seq<Vehicle>>): (r: SaveOutcome)
    ensures r == InvalidPlate <==> !IsValidPlate(form.plate)
    ensures r == DuplicatePlate <==>
              IsValidPlate(form.plate) && vehicles.Some? && PlateTaken(vehicles.value, Clean(form.plate), form.id)
    ensures r.Saved? ==> r.vehicle.plate == Clean(form.plate) && r.vehicle.(plate := form.plate) == form
  {
    var plate := Clean(form.plate);
    if !(IsOldForm(plate) || IsMercosurForm(plate)) then InvalidPlate
    else if vehicles.Some? && PlateTaken(vehicles.value, plate, form.id) then DuplicatePlate
    else Saved(form.(plate := plate))
  }

  /** A saved plate is valid and already clean. */
  lemma SavedPlateIsClean(form: Vehicle, vehicles: Option<seq<Vehicle>>)
    ensures SubmitVehicle(form, vehicles).Saved? ==>
              var v := SubmitVehicle(form, vehicles).vehicle;
              IsValidPlate(v.plate) && Clean(v.plate) == v.plate
  {
    CleanIdempotent(form.plate);
  }

  /** Saving a vehicle again, once it is in the list, is accepted and stores the
      same record: its own plate does not count as a duplicate. */
  lemma ResaveAccepted(form: Vehicle, vehicles: seq<Vehicle>)
    requires SubmitVehicle(form, Some(vehicles)).Saved?
    ensures var v := SubmitVehicle(form, Some(vehicles)).vehicle;
            SubmitVehicle(v, Some(vehicles + [v])) == Saved(v)
  {
    CleanIdempotent(form.plate);
  }
}
