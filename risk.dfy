/** The ordinal rank of a risk label used by the district panel's risk sort modes. */
module Risk {
  import opened JsString
  import opened JsValue

  /** `String(risk || "").trim().toLowerCase()`. */
  function RiskKey(risk: Value): string {
    ToLower(Trim(ToStr(Or(risk, Str("")))))
  }

  /** The rank of a normalised key as `riskOrder` computes it: the `"high"` test comes
      before the `"very high"` test. */
  function KeyRankAsWritten(k: string): (r: nat)
    ensures r <= 5
  {
    if k == "very low" || Includes(k, "very low") then 1
    else if k == "low" || Includes(k, "low") then 2
    else if k == "medium" || Includes(k, "medium") then 3
    else if k == "high" || Includes(k, "high") then 4
    else if k == "very high" || Includes(k, "very high") then 5
    else 0
  }

  /** `riskOrder(risk)` as written. */
  function RiskOrderAsWritten(risk: Value): (r: nat)
    ensures r <= 5
    // 0 (unranked) exactly when the normalised label names no severity
    ensures r == 0 <==>
      !Includes(RiskKey(risk), "low") && !Includes(RiskKey(risk), "medium") && !Includes(RiskKey(risk), "high")
  {
    KeyRankAsWrittenNeverFive(RiskKey(risk));
    KeyRankAsWritten(RiskKey(risk))
  }

  /** `riskOrder` with the `"very high"` test moved ahead of the `"high"` test, which is
      what the unreachable rank-5 branch was evidently meant to do. */
  function KeyRank(k: string): (r: nat)
    ensures r <= 5
  {
    if k == "very low" || Includes(k, "very low") then 1
    else if k == "low" || Includes(k, "low") then 2
    else if k == "medium" || Includes(k, "medium") then 3
    else if k == "very high" || Includes(k, "very high") then 5
    else if k == "high" || Includes(k, "high") then 4
    else 0
  }

  /** The corrected `riskOrder(risk)`, used by the risk sort modes of this model. */
  function RiskOrder(risk: Value): (r: nat)
    ensures r <= 5
    // 0 (unranked) exactly when the normalised label names no severity ...
    ensures r == 0 <==>
      !Includes(RiskKey(risk), "low") && !Includes(RiskKey(risk), "medium") && !Includes(RiskKey(risk), "high")
    // ... and the rank differs from the as-written one only where "very high" occurs
    ensures !Includes(RiskKey(risk), "very high") ==> r == RiskOrderAsWritten(risk)
  {
    KeyRankAgreesBelowVeryHigh(RiskKey(risk));
    KeyRank(RiskKey(risk))
  }

  /** Every key that includes "very high" includes "high", and likewise for "low". */
  lemma VeryIncludesPlain(v: string, w: string, k: string)
    requires (v == "very high" && w == "high") || (v == "very low" && w == "low")
    requires k == v || Includes(k, v)
    ensures Includes(k, w)
  {
    assert OccursAt(v, w, 5);
    OccursAtIncludes(v, w, 5);
    if k != v {
      IncludesTrans(k, v, w);
    }
  }

  /** As written, rank 5 is never returned, and rank 0 means no severity word occurs. */
  lemma {:induction false} KeyRankAsWrittenNeverFive(k: string)
    ensures KeyRankAsWritten(k) != 5
    ensures KeyRankAsWritten(k) == 0 <==>
      !Includes(k, "low") && !Includes(k, "medium") && !Includes(k, "high")
  {
    if k == "very high" || Includes(k, "very high") {
      VeryIncludesPlain("very high", "high", k);
    }
    if k == "very low" || Includes(k, "very low") {
      VeryIncludesPlain("very low", "low", k);
    }
    if k == "low" || k == "medium" || k == "high" {
      IncludesSelf(k);
    }
  }

  /** The as-written `riskOrder` never ranks a label 5. */
  lemma RiskOrderAsWrittenNeverFive(risk: Value)
    ensures RiskOrderAsWritten(risk) != 5
  {
    KeyRankAsWrittenNeverFive(RiskKey(risk));
  }

  /** The corrected rank is 0 exactly when no severity word occurs, and agrees with the
      as-written rank on every key that does not mention "very high". */
  lemma {:induction false} KeyRankAgreesBelowVeryHigh(k: string)
    ensures KeyRank(k) == 0 <==>
      !Includes(k, "low") && !Includes(k, "medium") && !Includes(k, "high")
    ensures !Includes(k, "very high") ==> KeyRank(k) == KeyRankAsWritten(k)
  {
    KeyRankAsWrittenNeverFive(k);
    if k == "very high" || Includes(k, "very high") {
      VeryIncludesPlain("very high", "high", k);
    }
    if k == "very high" {
      IncludesSelf(k);
    }
  }

  /** A label without edge spaces has its lower-case form as key. */
  lemma KeyOfLabel(text: string, k: string)
    requires text != [] && IsLetter(text[0]) && IsLetter(text[|text| - 1])
    requires k == ToLower(text)
    ensures RiskKey(Str(text)) == k
  {
    LetterIsNotSpace(text[0]);
    LetterIsNotSpace(text[|text| - 1]);
    TrimUnpadded(text);
  }

  // The lemmas below take the key as a parameter rather than as a literal, which keeps
  // the verifier from unfolding `Includes` on literal arguments.

  /** "medium" ranks 3. */
  lemma MediumRank(k: string)
    requires k == "medium"
    ensures KeyRank(k) == 3 && KeyRankAsWritten(k) == 3
  {
    MissingCharExcludes(k, "very low", 'v');
    MissingCharExcludes(k, "low", 'l');
    IncludesSelf(k);
  }

  /** "high" ranks 4. */
  lemma HighRank(k: string)
    requires k == "high"
    ensures KeyRank(k) == 4 && KeyRankAsWritten(k) == 4
  {
    MissingCharExcludes(k, "very low", 'v');
    MissingCharExcludes(k, "low", 'l');
    MissingCharExcludes(k, "medium", 'm');
    MissingCharExcludes(k, "very high", 'v');
    IncludesSelf(k);
  }

  /** "very high" ranks 5 when corrected, and 4 (tied with "high") as written. */
  lemma VeryHighRank(k: string)
    requires k == "very high"
    ensures KeyRank(k) == 5 && KeyRankAsWritten(k) == 4
  {
    MissingCharExcludes(k, "very low", 'l');
    MissingCharExcludes(k, "low", 'l');
    MissingCharExcludes(k, "medium", 'm');
    IncludesSelf(k);
    VeryIncludesPlain(k, "high", k);
  }

  /** The three lower canonical labels rank 1, 2 and 3. */
  lemma RiskOrderOfLowerLabels(text: string)
    ensures text == "Very Low" ==> RiskOrder(Str(text)) == 1
    ensures text == "Low" ==> RiskOrder(Str(text)) == 2
    ensures text == "Medium" ==> RiskOrder(Str(text)) == 3
  {
    if text == "Very Low" {
      KeyOfLabel(text, "very low");
      IncludesSelf("very low");
    } else if text == "Low" {
      KeyOfLabel(text, "low");
      IncludesSelf("low");
    } else if text == "Medium" {
      KeyOfLabel(text, "medium");
      MediumRank(RiskKey(Str(text)));
    }
  }

  /** "High" ranks 4, corrected or as written. */
  lemma RiskOrderOfHighLabel(text: string)
    requires text == "High"
    ensures RiskOrder(Str(text)) == 4 && RiskOrderAsWritten(Str(text)) == 4
  {
    KeyOfLabel(text, "high");
    HighRank(RiskKey(Str(text)));
  }

  /** "Very High", in either spelling, ranks 5 under the corrected rank; as written it ties
      with "High" at 4. */
  lemma RiskOrderOfVeryHighLabel(text: string)
    requires text == "Very High" || text == "VERY HIGH"
    ensures RiskOrder(Str(text)) == 5 && RiskOrderAsWritten(Str(text)) == 4
  {
    KeyOfLabel(text, "very high");
    VeryHighRank(RiskKey(Str(text)));
  }
}
