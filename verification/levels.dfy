/** The level table. */
module Levels {
  import opened Types
  import opened Grid

  const LEVELS: seq<LevelSpec> := [
    LevelSpec(1, "Novice", 8, 9, 3, 6, 120),
    LevelSpec(2, "Adept", 9, 10, 4, 7, 120),
    LevelSpec(3, "Master", 10, 12, 4, 8, 120)
  ]

  /** Full rows of tiles in the reserve of a freshly seeded level. */
  function PoolRows(level: LevelSpec): int {
    level.rows - level.initialFilledRows
  }

  /** Every level leaves at least one row empty and deals a non-empty reserve
      of whole rows. */
  lemma LevelsWellFormed()
    ensures |LEVELS| == 3
    ensures forall k :: 0 <= k < |LEVELS| ==>
              && LEVELS[k].cols > 0
              && 0 < LEVELS[k].initialFilledRows < LEVELS[k].rows
              && PoolLength(LEVELS[k]) == LEVELS[k].cols * PoolRows(LEVELS[k]) > 0
  {
  }

  /** Level ids count from one in table order. */
  lemma LevelIds()
    ensures forall k :: 0 <= k < |LEVELS| ==> LEVELS[k].id == k + 1
  {
  }

  /** The ranges the descriptor's field comments give. */
  lemma LevelFieldRanges()
    ensures forall k :: 0 <= k < |LEVELS| ==>
              3 <= LEVELS[k].initialFilledRows <= 4 && LEVELS[k].timerSeconds == 120
  {
  }

  /** Add-row budgets against the rows the reserve supplies: equal for levels
      1 and 3, one more than the reserve for level 2. */
  lemma LevelBudgets()
    ensures LEVELS[0].addRowLimit == PoolRows(LEVELS[0]) == 6
    ensures LEVELS[1].addRowLimit == PoolRows(LEVELS[1]) + 1 == 7
    ensures LEVELS[2].addRowLimit == PoolRows(LEVELS[2]) == 8
  {
  }
}
