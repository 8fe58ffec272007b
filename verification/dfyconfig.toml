includes = ["**/*.dfy"]

[options]
warn-contradictory-assumptions = true
verification-time-limit = 0
resource-limit = 2000000
