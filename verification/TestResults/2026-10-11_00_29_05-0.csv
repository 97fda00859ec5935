TestResult.DisplayName,TestResult.Outcome,TestResult.Duration,TestResult.ResourceCount,RandomSeed
Controller.ExchangeOutcome (correctness),Passed,00:00:00.2599703,275640,2
