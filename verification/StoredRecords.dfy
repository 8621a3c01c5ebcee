/** What stored rows and records must hold to count in a lookup, field by field. */
module StoredRecords {
  import opened BusinessEntry
  import opened RealizationLookup
  import opened Texts
  import opened Wrappers

  ghost predicate Holds(f: Fields, key: string, text: string) { key in f && f[key] == Str(text) }

  ghost predicate HoldsText(f: Fields, key: string, text: string) { Holds(f, key, text) && Nonblank(text) }

  /** No generation is asked for, or the record carries just that one. */
  ghost predicate OfGeneration(f: Fields, g: Option<string>) { g == None || Holds(f, "generationId", g.value) }

  lemma RequiredExact(f: Fields, key: string, text: string)
    ensures Required(f, key) == Some(text) <==> HoldsText(f, key, text)
  {
  }

  /** A relation row leads from a capability to its target when it says so in all its fields. */
  lemma RowExact(row: RelationRow, capabilityId: string, g: Option<string>, target: string)
    ensures RowTarget(row, capabilityId, g) == Some(target)
       <==> && row.Row? && Holds(row.fields, "source_id", capabilityId) && Holds(row.fields, "rel_type", "REALIZED_BY")
            && HoldsText(row.fields, "target_id", target)
            && (g == None || (row.properties.Some? && OfGeneration(row.properties.value, g)))
  {
    if row.Row? { RequiredExact(row.fields, "target_id", target); }
  }

  /** A capability record is one that holds its five texts. */
  lemma CapabilityExact(f: Fields, cap: Capability)
    ensures CapabilityOf(f) == Some(cap)
       <==> && HoldsText(f, "id", cap.id) && HoldsText(f, "name", cap.name)
            && HoldsText(f, "businessDomain", cap.domain) && HoldsText(f, "repoId", cap.repoId)
            && HoldsText(f, "entryCodeEntityId", cap.entryId)
  {
    RequiredExact(f, "id", cap.id);
    RequiredExact(f, "name", cap.name);
    RequiredExact(f, "businessDomain", cap.domain);
    RequiredExact(f, "repoId", cap.repoId);
    RequiredExact(f, "entryCodeEntityId", cap.entryId);
    hide Required, HoldsText;
  }

  // ----- line numbers -----

  function Pow10(n: nat): nat { if n == 0 then 1 else 10 * Pow10(n - 1) }

  /** Digits count by their place: a number written after another shifts it. */
  lemma {:induction false} DigitsExact(a: string, b: string)
    requires forall i :: 0 <= i < |a| ==> '0' <= a[i] <= '9'
    requires forall i :: 0 <= i < |b| ==> '0' <= b[i] <= '9'
    ensures ToNat(a + b) == ToNat(a) * Pow10(|b|) + ToNat(b)
    ensures |b| == 1 ==> ToNat(b) == b[0] as int - '0' as int
  {
    if b == "" {
      assert a + b == a;
    } else {
      var front := b[..|b| - 1];
      DigitsExact(a, front);
      assert (a + b)[..|a + b| - 1] == a + front;
      Shift(ToNat(a), Pow10(|front|), ToNat(front));
      if |b| == 1 {
        assert front == "";
      }
    }
  }

  lemma Shift(a: nat, p: nat, r: nat)
    ensures (a * p + r) * 10 == a * (10 * p) + r * 10
  {
  }

  /** A line field holds a positive number, or the digits of one within the limit and perhaps white space around. */
  ghost predicate HoldsLine(f: Fields, key: string, line: int) {
    && key in f && line > 0
    && (f[key] == Int(line)
        || (f[key].Str? && var digits := Strip(f[key].text);
            digits != "" && |digits| <= 4300 && (forall i :: 0 <= i < |digits| ==> '0' <= digits[i] <= '9')
            && ToNat(digits) == line))
  }

  lemma LineExact(f: Fields, key: string, line: Option<int>)
    ensures OptionalLine(f, key) == Usable(line)
       <==> if line == None then key !in f else HoldsLine(f, key, line.value)
  {
    hide Strip, ToNat;
  }

  // ----- entries -----

  /** An optional text is there as it is stored, or is not there. */
  ghost predicate MayHold(f: Fields, key: string, text: Option<string>) {
    if text == None then key !in f else Holds(f, key, text.value)
  }

  lemma OptionalExact(f: Fields, key: string, text: Option<string>)
    ensures OptionalString(f, key, false) == (true, text) <==> MayHold(f, key, text)
    ensures OptionalString(f, key, true) == (true, text)
       <==> MayHold(f, key, text) && (text == None || Nonblank(text.value))
  {
  }

  ghost predicate HoldsCode(e: RawEntry, f: Fields) {
    && HoldsText(f, "id", e.codeEntityId) && HoldsText(f, "repoId", e.codeEntityRepoId)
    && HoldsText(f, "name", e.entryName) && MayHold(f, "entryCategory", e.entryCategory)
    && MayHold(f, "filePath", e.filePath) && (e.filePath == None || Nonblank(e.filePath.value))
    && MayHold(f, "entryMetadata", e.entryMetadata)
    && (if e.startLine == None then "startLine" !in f else HoldsLine(f, "startLine", e.startLine.value))
    && (if e.endLine == None then "endLine" !in f else HoldsLine(f, "endLine", e.endLine.value))
  }

  /**
   A code entity makes an entry exactly when it is the one named, of the repository and generation asked
   for, with fields that can be used and lines in order; the entry holds the capability's texts and the
   code entity's fields as they are stored.
   */
  lemma EntryExact(cap: Capability, code: Fields, target: string, repo: string, g: Option<string>, e: RawEntry)
    ensures RawFromNodes(cap, code, target, repo, g) == Entry(e)
       <==> && HoldsCode(e, code) && e.codeEntityId == target && e.codeEntityRepoId == repo && OfGeneration(code, g)
            && (e.startLine.Some? && e.endLine.Some? ==> e.startLine.value <= e.endLine.value)
            && (e.capabilityId, e.capabilityName, e.capabilityDomain, e.capabilityRepoId)
               == (cap.id, cap.name, cap.domain, cap.repoId)
            && e.generationId == g
  {
    RequiredExact(code, "id", e.codeEntityId);
    RequiredExact(code, "repoId", e.codeEntityRepoId);
    RequiredExact(code, "name", e.entryName);
    OptionalExact(code, "entryCategory", e.entryCategory);
    OptionalExact(code, "filePath", e.filePath);
    OptionalExact(code, "entryMetadata", e.entryMetadata);
    LineExact(code, "startLine", e.startLine);
    LineExact(code, "endLine", e.endLine);
    hide Required, HoldsText, OptionalString, MayHold, OptionalLine, HoldsLine, Nonblank;
  }

  // ----- the generation asked for -----

  lemma {:induction false} StripLeftPadded(before: string, s: string)
    requires forall c :: c in before ==> IsSpace(c)
    ensures StripLeft(before + s) == StripLeft(s)
  {
    hide IsSpace;
    if before == "" {
      assert before + s == s;
    } else {
      assert (before + s)[1..] == before[1..] + s && (before + s)[0] == before[0] && before[0] in before;
      StripLeftPadded(before[1..], s);
    }
  }

  lemma {:induction false} StripRightPadded(s: string, after: string)
    requires forall c :: c in after ==> IsSpace(c)
    ensures StripRight(s + after) == StripRight(s)
  {
    hide IsSpace;
    if after == "" {
      assert s + after == s;
    } else {
      var all := s + after;
      assert all[..|all| - 1] == s + after[..|after| - 1] && all[|all| - 1] == after[|after| - 1];
      assert after[|after| - 1] in after;
      StripRightPadded(s, after[..|after| - 1]);
    }
  }

  lemma {:induction false} StripLeftTail(s: string, after: string)
    requires Nonblank(s)
    ensures StripLeft(s + after) == StripLeft(s) + after
  {
    hide IsSpace;
    assert (s + after)[0] == s[0];
    if IsSpace(s[0]) {
      var i :| 0 <= i < |s| && !IsSpace(s[i]);
      assert s[1..][i - 1] == s[i];
      assert (s + after)[1..] == s[1..] + after;
      StripLeftTail(s[1..], after);
    }
  }

  /** White space around the generation asked for changes nothing. */
  lemma GenerationTrimmed(b: Backend, repo: string, ids: seq<string>, generation: string, before: string, after: string)
    requires Nonblank(generation) && forall c :: c in before + after ==> IsSpace(c)
    ensures Lookup(b, repo, ids, Some(before + generation + after)) == Lookup(b, repo, ids, Some(generation))
  {
    var all := before + generation + after;
    var i :| 0 <= i < |generation| && !IsSpace(generation[i]);
    assert all[|before| + i] == generation[i];
    assert all == before + (generation + after);
    assert forall c :: c in before ==> c in before + after;
    assert forall c :: c in after ==> c in before + after;
    hide IsSpace;
    assert Strip(all) == Strip(generation) by {
      StripLeftPadded(before, generation + after);
      StripLeftTail(generation, after);
      StripRightPadded(StripLeft(generation), after);
    }
    hide StepAll, Dedup, Strip;
  }
}
