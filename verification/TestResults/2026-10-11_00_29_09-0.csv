TestResult.DisplayName,TestResult.Outcome,TestResult.Duration,TestResult.ResourceCount,RandomSeed
Controller.ExchangeOutcome (correctness),Passed,00:00:00.4758846,807507,3
