TestResult.DisplayName,TestResult.Outcome,TestResult.Duration,TestResult.ResourceCount,RandomSeed
MappingTables.AssignFromRoundTrips (correctness),Failed,00:00:01.1156297,2276207,0
MappingTables.AssignFromRoundTrips (well-formedness),Passed,00:00:00.4406123,290081,0
